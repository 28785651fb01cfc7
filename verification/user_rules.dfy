/** Brazilian taxpayer numbers (CPF) and mobile numbers: their checks and
    display formats, and the user validations. */
module UserRules {
  import opened Base
  import opened Chars
  import opened Entities
  import opened LoanRules

  // ---- removing separators ----

  predicate NoDigits(s: string) {
    forall i :: 0 <= i < |s| ==> !IsDigit(s[i])
  }

  lemma OnlyDigitsAfterDigits(a: string, b: string)
    requires AllDigits(a)
    ensures OnlyDigits(a + b) == a + OnlyDigits(b)
  {
    FilterAppend(a, b, IsDigit);
    FilterKeepsAll(a, IsDigit);
  }

  lemma OnlyDigitsAfterSeparator(sep: string, b: string)
    requires NoDigits(sep)
    ensures OnlyDigits(sep + b) == OnlyDigits(b)
  {
    FilterAppend(sep, b, IsDigit);
    FilterDropsAll(sep, IsDigit);
  }

  // ---- phone ----

  /** `validatePhone`: after removing non-digits, two area-code digits, a 9,
      and eight more digits. */
  predicate ValidPhone(phone: string) {
    var d := OnlyDigits(phone);
    |d| == 11 && d[2] == '9'
  }

  /** `formatPhone`: eleven digits become `(DD) DDDDD-DDDD`; any other count
      of digits is returned as the bare digits. */
  function FormatPhone(phone: string): (r: string)
    ensures |OnlyDigits(phone)| == 11 ==> |r| == 15 && r[0] == '(' && r[3] == ')' && r[4] == ' ' && r[10] == '-'
    ensures |OnlyDigits(phone)| != 11 ==> r == OnlyDigits(phone)
  {
    var d := OnlyDigits(phone);
    if |d| == 11 then "(" + (d[..2] + (") " + (d[2..7] + ("-" + d[7..])))) else d
  }

  /** Formatting keeps the digits, so it changes neither the phone check
      nor a second formatting. */
  lemma {:induction false} FormatPhoneKeepsDigits(phone: string)
    ensures OnlyDigits(FormatPhone(phone)) == OnlyDigits(phone)
    ensures ValidPhone(FormatPhone(phone)) == ValidPhone(phone)
    ensures FormatPhone(FormatPhone(phone)) == FormatPhone(phone)
  {
    var d := OnlyDigits(phone);
    if |d| == 11 {
      OnlyDigitsOfPhonePieces(d);
    } else {
      OnlyDigitsOfDigits(d);
    }
  }

  /** A phone passes the check iff its display form is `(DD) 9DDDD-DDDD`:
      eleven digits, the one right after the area code a 9. */
  lemma ValidPhoneIffFormatted(phone: string)
    ensures ValidPhone(phone) <==> (var f := FormatPhone(phone); |f| == 15 && f[0] == '(' && f[5] == '9')
  {
    var d := OnlyDigits(phone);
    var f := FormatPhone(phone);
    if |d| == 11 {
      assert f == "(" + (d[..2] + (") " + (d[2..7] + ("-" + d[7..]))));
      assert f[5] == d[2];
    } else if |f| > 0 {
      assert IsDigit(f[0]);
    }
  }

  lemma OnlyDigitsOfPhoneParts(p1: string, p2: string, p3: string)
    requires AllDigits(p1) && AllDigits(p2) && AllDigits(p3)
    ensures OnlyDigits("(" + (p1 + (") " + (p2 + ("-" + p3))))) == p1 + (p2 + p3)
  {
    OnlyDigitsOfDigits(p3);
    OnlyDigitsJoin(p2, "-", p3);
    OnlyDigitsJoin(p1, ") ", p2 + ("-" + p3));
    OnlyDigitsAfterSeparator("(", p1 + (") " + (p2 + ("-" + p3))));
  }

  lemma OnlyDigitsOfPhonePieces(d: string)
    requires |d| == 11 && AllDigits(d)
    ensures OnlyDigits("(" + (d[..2] + (") " + (d[2..7] + ("-" + d[7..]))))) == d
  {
    var p1, p2, p3 := d[..2], d[2..7], d[7..];
    OnlyDigitsOfPhoneParts(p1, p2, p3);
    assert d[2..] == p2 + p3;
    assert d == p1 + d[2..];
  }

  // ---- CPF ----

  /** The quotient of JavaScript's division truncated toward zero. */
  function JsQuot(a: int, n: int): int
    requires n > 0
  {
    if a >= 0 then a / n else -((-a) / n)
  }

  /** JavaScript's `%`, which keeps the sign of the dividend: what is left
      of `a` after taking away the truncated quotient's multiple of `n`. */
  function JsRem(a: int, n: int): (r: int)
    requires n > 0
    ensures a >= 0 ==> 0 <= r < n
    ensures a < 0 ==> -n < r <= 0
    ensures a == JsQuot(a, n) * n + r
  {
    if a >= 0 then a % n
    else
      var q := (-a) / n;
      assert -a == q * n + (-a) % n;
      assert -(q * n) == (-q) * n;
      -((-a) % n)
  }

  /** Σ digit·weight with weights factor, factor − 1, … */
  function CpfSum(base: string, factor: int): int
    requires AllDigits(base)
  {
    if |base| == 0 then 0
    else CpfSum(base[..|base| - 1], factor) + DigitValue(base[|base| - 1]) * (factor - (|base| - 1))
  }

  /** A check digit from a weighted sum: 0 when the remainder by 11 is below 2,
      otherwise 11 minus it. */
  function CheckDigit(total: int): (d: nat)
    ensures d < 10
  {
    var r := JsRem(total, 11);
    if r < 2 then 0 else 11 - r
  }

  /** `calculateDigit`: the running total and the descending factor. */
  method CalculateDigit(base: string, factor: int) returns (digit: nat)
    requires AllDigits(base)
    ensures digit == CheckDigit(CpfSum(base, factor))
    ensures digit < 10
  {
    var total := 0;
    var f := factor;
    var i := 0;
    while i < |base|
      invariant 0 <= i <= |base|
      invariant f == factor - i
      invariant total == CpfSum(base[..i], factor)
    {
      assert base[..i + 1][..i] == base[..i];
      total := total + DigitValue(base[i]) * f;
      f := f - 1;
      i := i + 1;
    }
    assert base[..i] == base;
    var r := JsRem(total, 11);
    digit := if r < 2 then 0 else 11 - r;
  }

  /** Eleven copies of one digit: what the pattern `^(\d)\1{10}$` matches. */
  predicate Repeated(d: string) {
    |d| == 11 && forall i :: 0 <= i < |d| ==> d[i] == d[0]
  }

  function Min(a: int, b: int): int {
    if a < b then a else b
  }

  /** What `validateCPF` answers. The first check digit is computed from the
      first nine digits with weights 10..2, the second from those nine plus
      the first check digit with weights 11..2; they must equal the tenth and
      eleventh digits. Fewer than eleven digits leave nothing to compare and
      are refused; digits beyond the eleventh are not looked at. */
  predicate CpfSpec(cpf: string) {
    var d := OnlyDigits(cpf);
    if Repeated(d) then false
    else
      var base := d[..Min(9, |d|)];
      var dv1 := CheckDigit(CpfSum(base, 10));
      var dv2 := CheckDigit(CpfSum(base + [DigitChar(dv1)], 11));
      |d| >= 11 && dv1 == DigitValue(d[9]) && dv2 == DigitValue(d[10])
  }

  /** `validateCPF`. */
  method ValidateCpf(cpf: string) returns (ok: bool)
    ensures ok == CpfSpec(cpf)
  {
    var d := OnlyDigits(cpf);
    if Repeated(d) {
      return false;
    }
    var base := d[..Min(9, |d|)];
    var digit1 := CalculateDigit(base, 10);
    var digit2 := CalculateDigit(base + [DigitChar(digit1)], 11);
    ok := |d| >= 11 && digit1 == DigitValue(d[9]) && digit2 == DigitValue(d[10]);
  }

  /** `formatCPF`: eleven digits become `DDD.DDD.DDD-DD`; any other count of
      digits is returned as the bare digits. */
  function FormatCpf(cpf: string): (r: string)
    ensures |OnlyDigits(cpf)| == 11 ==> |r| == 14 && r[3] == '.' && r[7] == '.' && r[11] == '-'
    ensures |OnlyDigits(cpf)| != 11 ==> r == OnlyDigits(cpf)
  {
    var d := OnlyDigits(cpf);
    if |d| == 11 then d[..3] + ("." + (d[3..6] + ("." + (d[6..9] + ("-" + d[9..]))))) else d
  }

  /** A run of digits, a separator, and the rest: only the digits survive. */
  lemma OnlyDigitsJoin(a: string, sep: string, b: string)
    requires AllDigits(a) && NoDigits(sep)
    ensures OnlyDigits(a + (sep + b)) == a + OnlyDigits(b)
  {
    OnlyDigitsAfterSeparator(sep, b);
    OnlyDigitsAfterDigits(a, sep + b);
  }

  lemma OnlyDigitsOfCpfPieces(p1: string, p2: string, p3: string, p4: string)
    requires AllDigits(p1) && AllDigits(p2) && AllDigits(p3) && AllDigits(p4)
    ensures OnlyDigits(p1 + ("." + (p2 + ("." + (p3 + ("-" + p4)))))) == p1 + (p2 + (p3 + p4))
  {
    OnlyDigitsOfDigits(p4);
    OnlyDigitsJoin(p3, "-", p4);
    OnlyDigitsJoin(p2, ".", p3 + ("-" + p4));
    OnlyDigitsJoin(p1, ".", p2 + ("." + (p3 + ("-" + p4))));
  }

  lemma OnlyDigitsOfElevenPieces(d: string)
    requires |d| == 11 && AllDigits(d)
    ensures OnlyDigits(d[..3] + ("." + (d[3..6] + ("." + (d[6..9] + ("-" + d[9..])))))) == d
  {
    var p1, p2, p3, p4 := d[..3], d[3..6], d[6..9], d[9..];
    OnlyDigitsOfCpfPieces(p1, p2, p3, p4);
    assert d[6..] == p3 + p4;
    assert d[3..] == p2 + d[6..];
    assert d == p1 + d[3..];
  }

  lemma FormatCpfDigits(cpf: string)
    ensures OnlyDigits(FormatCpf(cpf)) == OnlyDigits(cpf)
  {
    var d := OnlyDigits(cpf);
    if |d| == 11 {
      OnlyDigitsOfElevenPieces(d);
    } else {
      OnlyDigitsOfDigits(d);
    }
  }

  /** Formatting keeps the digits, so a formatted CPF is valid exactly when
      the raw one is, and formatting twice changes nothing. */
  lemma FormatCpfKeepsDigits(cpf: string)
    ensures OnlyDigits(FormatCpf(cpf)) == OnlyDigits(cpf)
    ensures CpfSpec(FormatCpf(cpf)) == CpfSpec(cpf)
    ensures FormatCpf(FormatCpf(cpf)) == FormatCpf(cpf)
  {
    FormatCpfDigits(cpf);
  }

  /** An accepted CPF has at least eleven digits and is not one digit repeated. */
  lemma CpfAcceptedShape(cpf: string)
    requires CpfSpec(cpf)
    ensures |OnlyDigits(cpf)| >= 11 && !Repeated(OnlyDigits(cpf))
  {
  }

  function Rep(k: nat, n: nat): (s: string)
    requires k < 10
    ensures |s| == n && AllDigits(s)
  {
    seq(n, _ => DigitChar(k))
  }

  lemma {:induction false} CpfSumOfRepeated(k: nat, n: nat, f: int)
    requires k < 10
    ensures CpfSum(Rep(k, n), f) == k * (n * f - n * (n - 1) / 2)
  {
    if n > 0 {
      CpfSumOfRepeated(k, n - 1, f);
      assert Rep(k, n)[..n - 1] == Rep(k, n - 1);
      TriangleStep(k, n, f);
    }
  }

  /** The arithmetic of one step of `CpfSumOfRepeated`. */
  lemma TriangleStep(k: nat, n: nat, f: int)
    requires n > 0
    ensures k * ((n - 1) * f - (n - 1) * (n - 2) / 2) + k * (f - (n - 1)) == k * (n * f - n * (n - 1) / 2)
  {
    var a := (n - 1) * f - (n - 1) * (n - 2) / 2;
    assert n * (n - 1) == (n - 1) * (n - 2) + 2 * (n - 1);
    assert (n - 1) * (n - 2) / 2 + (n - 1) == n * (n - 1) / 2;
    assert n * f == (n - 1) * f + f;
    assert a + (f - (n - 1)) == n * f - n * (n - 1) / 2;
    assert k * a + k * (f - (n - 1)) == k * (a + (f - (n - 1)));
  }

  /** One digit repeated eleven times passes both check digits, which is why
      the source rejects that shape before checking. */
  lemma RepeatedDigitsPassChecksum(k: nat)
    requires k < 10
    ensures CheckDigit(CpfSum(Rep(k, 9), 10)) == k
    ensures CheckDigit(CpfSum(Rep(k, 9) + [DigitChar(k)], 11)) == k
    ensures !CpfSpec(Rep(k, 11))
  {
    CpfSumOfRepeated(k, 9, 10);
    assert Rep(k, 9) + [DigitChar(k)] == Rep(k, 10);
    CpfSumOfRepeated(k, 10, 11);
    RepeatedCheckDigits(k);
    RepeatedRefused(k);
  }

  /** 54 and 65 are both one less than a multiple of 11. */
  lemma RepeatedCheckDigits(k: nat)
    requires k < 10
    ensures CheckDigit(k * 54) == k && CheckDigit(k * 65) == k
  {
    if k == 0 {
    } else if k == 1 {
    } else if k == 2 {
    } else if k == 3 {
    } else if k == 4 {
    } else if k == 5 {
    } else if k == 6 {
    } else if k == 7 {
    } else if k == 8 {
    } else {
    }
  }

  lemma RepeatedRefused(k: nat)
    requires k < 10
    ensures !CpfSpec(Rep(k, 11))
  {
    OnlyDigitsOfDigits(Rep(k, 11));
  }

  /** Digits after the eleventh are ignored: appending one to a valid
      eleven-digit CPF gives a twelve-digit string that is still accepted. */
  lemma LongerCpfAccepted(cpf: string)
    requires CpfSpec(cpf) && |OnlyDigits(cpf)| == 11
    ensures CpfSpec(cpf + "0")
  {
    var d := OnlyDigits(cpf);
    OnlyDigitsAppendZero(cpf);
    var e := d + "0";
    assert e[..9] == d[..9] && e[9] == d[9] && e[10] == d[10];
    assert !Repeated(e);
  }

  lemma OnlyDigitsAppendZero(cpf: string)
    ensures OnlyDigits(cpf + "0") == OnlyDigits(cpf) + "0"
  {
    var z := '0';
    assert "0" == [z];
    assert (cpf + [z])[..|cpf|] == cpf;
  }

  /** One more character of the same string in the weighted sum. */
  lemma CpfSumPrefix(s: string, k: nat, f: int)
    requires AllDigits(s) && 0 < k <= |s|
    ensures CpfSum(s[..k], f) == CpfSum(s[..k - 1], f) + DigitValue(s[k - 1]) * (f - (k - 1))
  {
    assert s[..k][..k - 1] == s[..k - 1];
  }

  /** The weighted sum of nine digits written out. */
  lemma CpfSumNine(s: string, f: int)
    requires |s| == 9 && AllDigits(s)
    ensures CpfSum(s, f) == DigitValue(s[0]) * f + DigitValue(s[1]) * (f - 1) + DigitValue(s[2]) * (f - 2)
      + DigitValue(s[3]) * (f - 3) + DigitValue(s[4]) * (f - 4) + DigitValue(s[5]) * (f - 5)
      + DigitValue(s[6]) * (f - 6) + DigitValue(s[7]) * (f - 7) + DigitValue(s[8]) * (f - 8)
  {
    assert s[..0] == [];
    CpfSumPrefix(s, 1, f);
    CpfSumPrefix(s, 2, f);
    CpfSumPrefix(s, 3, f);
    CpfSumPrefix(s, 4, f);
    CpfSumPrefix(s, 5, f);
    CpfSumPrefix(s, 6, f);
    CpfSumPrefix(s, 7, f);
    CpfSumPrefix(s, 8, f);
    CpfSumPrefix(s, 9, f);
    assert s[..9] == s;
  }

  lemma ExampleFirstSum()
    ensures CpfSum("529982247", 10) == 295
  {
    CpfSumNine("529982247", 10);
  }

  lemma ExampleSecondSum()
    ensures CpfSum("5299822472", 11) == 347
  {
    var s := "5299822472";
    CpfSumPrefix(s, 10, 11);
    assert s[..10] == s;
    CpfSumNine(s[..9], 11);
    assert s[..9] == "529982247";
  }

  /** Eleven digits, not all the same, whose last two are the check digits
      of the ones before them, pass. */
  lemma CpfSpecOfDigits(d: string)
    requires |d| == 11 && AllDigits(d) && !Repeated(d)
    requires CheckDigit(CpfSum(d[..9], 10)) == DigitValue(d[9])
    requires CheckDigit(CpfSum(d[..10], 11)) == DigitValue(d[10])
    ensures CpfSpec(d)
  {
    OnlyDigitsOfDigits(d);
    assert d[..9] + [DigitChar(DigitValue(d[9]))] == d[..10];
  }

  lemma ExampleValid()
    ensures CpfSpec("52998224725")
  {
    var d := "52998224725";
    assert d[..9] == "529982247";
    ExampleFirstSum();
    assert d[..10] == "5299822472";
    ExampleSecondSum();
    assert !Repeated(d) by { assert d[1] != d[0]; }
    CpfSpecOfDigits(d);
  }

  /** A concrete input: 529.982.247-25 is a valid CPF, and the same digits
      followed by a 0 are accepted as well. */
  lemma TwelveDigitCpfAccepted()
    ensures CpfSpec("52998224725" + "0")
  {
    ExampleValid();
    OnlyDigitsOfDigits("52998224725");
    LongerCpfAccepted("52998224725");
  }

  /** The fix: a CPF is exactly eleven digits that pass the check. */
  predicate CpfStrict(cpf: string) {
    |OnlyDigits(cpf)| == 11 && CpfSpec(cpf)
  }

  /** The corrected check never accepts the twelve-digit extension of a CPF
      it accepts, and like the original it does not care about formatting. */
  lemma CpfStrictShape(cpf: string)
    ensures CpfStrict(cpf) ==> !CpfStrict(cpf + "0")
    ensures CpfStrict(FormatCpf(cpf)) == CpfStrict(cpf)
  {
    OnlyDigitsAppendZero(cpf);
    FormatCpfKeepsDigits(cpf);
  }

  /** On the finding's input: the eleven digits pass the corrected check,
      the twelve digits that the original accepts do not. */
  lemma CpfStrictOnExample()
    ensures CpfStrict("52998224725") && !CpfStrict("52998224725" + "0")
  {
    ExampleValid();
    OnlyDigitsOfDigits("52998224725");
    CpfStrictShape("52998224725");
  }

  // ---- user validations ----

  function ConflictsOnRegister(name: string, email: string, cpf: string, phone: string): User -> bool {
    (u: User) => SameIgnoringCase(u.email, email) || SameIgnoringCase(u.cpf, cpf)
              || SameIgnoringCase(u.name, name) || SameIgnoringCase(u.phone, phone)
  }

  /** `registerUserValidation`: looks at the first user equal to the new one,
      ignoring case, in email, CPF, name or phone, and reports the first of
      email, CPF, name that is exactly equal; a row matching only by phone
      or only up to case is not reported. */
  function RegisterUserValidation(users: seq<User>, name: string, email: string, cpf: string, phone: string)
    : (r: Option<Reason>)
    ensures r.Some? ==> r.value == EmailTaken || r.value == CpfTaken || r.value == NameTaken
    ensures r == Some(EmailTaken) ==> exists i :: 0 <= i < |users| && users[i].email == email
    ensures r == Some(CpfTaken) ==> exists i :: 0 <= i < |users| && users[i].cpf == cpf && users[i].email != email
    ensures r == Some(NameTaken) ==> exists i :: 0 <= i < |users| && users[i].name == name && users[i].cpf != cpf
    ensures (forall i :: 0 <= i < |users| ==> !ConflictsOnRegister(name, email, cpf, phone)(users[i])) ==> r.None?
    ensures forall k: nat :: IsFirst(users, ConflictsOnRegister(name, email, cpf, phone), k) ==>
      && (r == Some(EmailTaken) <==> users[k].email == email)
      && (r == Some(CpfTaken) <==> users[k].email != email && users[k].cpf == cpf)
      && (r == Some(NameTaken) <==> users[k].email != email && users[k].cpf != cpf && users[k].name == name)
      && (r.None? <==> users[k].email != email && users[k].cpf != cpf && users[k].name != name)
  {
    FindFirstIsFirst(users, ConflictsOnRegister(name, email, cpf, phone));
    match FindFirst(users, ConflictsOnRegister(name, email, cpf, phone))
    case None => None
    case Some(k) =>
      if users[k].email == email then Some(EmailTaken)
      else if users[k].cpf == cpf then Some(CpfTaken)
      else if users[k].name == name then Some(NameTaken)
      else None
  }

  /** Only the first conflicting row is examined: a user who shares just the
      phone, listed before a user with the same email, hides the duplicate email. */
  lemma RegisterSeesOnlyFirstConflict(a: User, b: User, name: string, email: string, cpf: string, phone: string)
    requires a.phone == phone && a.email != email && a.cpf != cpf && a.name != name
    requires b.email == email
    ensures RegisterUserValidation([a, b], name, email, cpf, phone).None?
  {
    assert ConflictsOnRegister(name, email, cpf, phone)(a);
  }

  function ConflictsOnUpdate(id: UserId, name: string, email: string, phone: string): User -> bool {
    (u: User) => u.id != id
      && (SameIgnoringCase(u.email, email) || SameIgnoringCase(u.name, name) || SameIgnoringCase(u.phone, phone))
  }

  /** `updateUserValidation`: as registration but over the other users, and
      reporting email, then name, then phone. */
  function UpdateUserValidation(users: seq<User>, id: UserId, name: string, email: string, phone: string)
    : (r: Option<Reason>)
    ensures r.Some? ==> r.value == EmailTaken || r.value == NameTaken || r.value == PhoneTaken
    ensures r == Some(EmailTaken) ==> exists i :: 0 <= i < |users| && users[i].id != id && users[i].email == email
    ensures r == Some(NameTaken) ==> exists i :: 0 <= i < |users| && users[i].id != id && users[i].name == name
    ensures r == Some(PhoneTaken) ==> exists i :: 0 <= i < |users| && users[i].id != id && users[i].phone == phone
    ensures (forall i :: 0 <= i < |users| ==> !ConflictsOnUpdate(id, name, email, phone)(users[i])) ==> r.None?
    ensures forall k: nat :: IsFirst(users, ConflictsOnUpdate(id, name, email, phone), k) ==>
      && (r == Some(EmailTaken) <==> users[k].email == email)
      && (r == Some(NameTaken) <==> users[k].email != email && users[k].name == name)
      && (r == Some(PhoneTaken) <==> users[k].email != email && users[k].name != name && users[k].phone == phone)
      && (r.None? <==> users[k].email != email && users[k].name != name && users[k].phone != phone)
  {
    FindFirstIsFirst(users, ConflictsOnUpdate(id, name, email, phone));
    match FindFirst(users, ConflictsOnUpdate(id, name, email, phone))
    case None => None
    case Some(k) =>
      if users[k].email == email then Some(EmailTaken)
      else if users[k].name == name then Some(NameTaken)
      else if users[k].phone == phone then Some(PhoneTaken)
      else None
  }

  /** A user keeping their own email, name and phone is never in conflict with themself. */
  lemma UpdateIgnoresSelf(u: User)
    ensures UpdateUserValidation([u], u.id, u.name, u.email, u.phone).None?
  {
  }

  /** `deleteUserValidation`: refused while the user has a loan in status
      ONGOING; requested and overdue loans do not count. */
  function DeleteUserValidation(loans: seq<Loan>, uid: UserId): (r: Option<Reason>)
    ensures r.None? <==> forall i :: 0 <= i < |loans| ==> !(loans[i].userId == Some(uid) && loans[i].status == ONGOING)
    ensures r.Some? ==> r.value == HasActiveLoans
  {
    CountPositive(loans, ActiveOf(uid));
    if ActiveLoans(loans, uid) > 0 then Some(HasActiveLoans) else None
  }
}
