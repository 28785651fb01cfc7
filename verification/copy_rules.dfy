/** ISBN checking and formatting, and the copy validations. */
module CopyRules {
  import opened Base
  import opened Chars
  import opened Entities

  /** The characters the cleaning pattern keeps: digits and the letter X in
      either case. */
  predicate IsIsbnChar(c: char) {
    IsDigit(c) || c == 'X' || c == 'x'
  }

  predicate AllIsbnChars(s: string) {
    forall i :: 0 <= i < |s| ==> IsIsbnChar(s[i])
  }

  /** `replace(/[^0-9X]/gi, '')`. */
  function CleanIsbn(s: string): (c: string)
    ensures AllIsbnChars(c) && |c| <= |s|
  {
    var c := Filter(s, IsIsbnChar);
    assert forall i :: 0 <= i < |c| ==> c[i] in c;
    c
  }

  predicate DigitsUpTo(c: string, n: nat)
    requires n <= |c|
  {
    forall k :: 0 <= k < n ==> IsDigit(c[k])
  }

  /** Weighted sum of the first n characters of an ISBN-10: weights 10, 9, 8, … */
  function Isbn10Sum(c: string, n: nat): int
    requires n <= |c| && DigitsUpTo(c, n)
  {
    if n == 0 then 0 else Isbn10Sum(c, n - 1) + (10 - (n - 1)) * DigitValue(c[n - 1])
  }

  /** Weighted sum of the first n characters of an ISBN-13: weights 1, 3, 1, 3, … */
  function Isbn13Sum(c: string, n: nat): int
    requires n <= |c| && DigitsUpTo(c, n)
  {
    if n == 0 then 0 else Isbn13Sum(c, n - 1) + DigitValue(c[n - 1]) * (if (n - 1) % 2 == 0 then 1 else 3)
  }

  /** Value of an ISBN-10 check character: upper-case X is 10, a digit its
      value; anything else (lower-case x) parses to NaN and fails every test. */
  function CheckValue10(ch: char): (v: Option<nat>)
    ensures v.Some? ==> v.value <= 10
    ensures v.None? <==> !IsDigit(ch) && ch != 'X'
  {
    if ch == 'X' then Some(10) else if IsDigit(ch) then Some(DigitValue(ch)) else None
  }

  /** The ISBN-13 check digit of a 12-digit prefix sum. */
  function Check13(sum: int): (d: int)
    ensures 0 <= d < 10
  {
    (10 - sum % 10) % 10
  }

  /** `D-DDD-DDDDD-C`. */
  function Format10(c: string): string
    requires |c| == 10
  {
    c[..1] + "-" + (c[1..4] + "-" + (c[4..9] + "-" + [c[9]]))
  }

  /** `DDD-D-DDD-DDDDD-C`. */
  function Format13(c: string): string
    requires |c| == 13
  {
    c[..3] + "-" + (c[3..4] + "-" + (c[4..7] + "-" + (c[7..12] + "-" + [c[12]])))
  }

  /** What `validateISBN` answers: the formatted ISBN, or None for `false`.
      Only ten or thirteen kept characters can pass; the first nine (ISBN-10)
      or all thirteen (ISBN-13) must be digits, and the weighted sum must
      check. */
  function IsbnSpec(s: string): (r: Option<string>)
    ensures r.Some? ==> |CleanIsbn(s)| == 10 || |CleanIsbn(s)| == 13
    ensures r.Some? && |CleanIsbn(s)| == 10 ==> r.value == Format10(CleanIsbn(s))
    ensures r.Some? && |CleanIsbn(s)| == 13 ==> r.value == Format13(CleanIsbn(s)) && AllDigits(CleanIsbn(s))
  {
    var c := CleanIsbn(s);
    if |c| == 10 then
      if DigitsUpTo(c, 9) && CheckValue10(c[9]).Some? && (Isbn10Sum(c, 9) + CheckValue10(c[9]).value) % 11 == 0
      then Some(Format10(c)) else None
    else if |c| == 13 then
      if DigitsUpTo(c, 13) && Check13(Isbn13Sum(c, 12)) == DigitValue(c[12])
      then Some(Format13(c)) else None
    else None
  }

  /** `validateISBN`. A character that is not a digit makes the running sum
      NaN, which no later test accepts; `nan` records that. */
  method ValidateIsbn(isbn: string) returns (r: Option<string>)
    ensures r == IsbnSpec(isbn)
  {
    var c := CleanIsbn(isbn);
    if |c| == 10 {
      var sum := 0;
      var nan := false;
      for i := 0 to 9
        invariant nan <==> !DigitsUpTo(c, i)
        invariant !nan ==> sum == Isbn10Sum(c, i)
      {
        if IsDigit(c[i]) {
          sum := sum + (10 - i) * DigitValue(c[i]);
        } else {
          nan := true;
        }
      }
      var check := CheckValue10(c[9]);
      if !nan && check.Some? && (sum + check.value) % 11 == 0 {
        r := Some(Format10(c));
      } else {
        r := None;
      }
    } else if |c| == 13 {
      var sum := 0;
      var nan := false;
      for i := 0 to 12
        invariant nan <==> !DigitsUpTo(c, i)
        invariant !nan ==> sum == Isbn13Sum(c, i)
      {
        if IsDigit(c[i]) {
          sum := sum + DigitValue(c[i]) * (if i % 2 == 0 then 1 else 3);
        } else {
          nan := true;
        }
      }
      if !nan && IsDigit(c[12]) && Check13(sum) == DigitValue(c[12]) {
        r := Some(Format13(c));
      } else {
        r := None;
      }
    } else {
      r := None;
    }
  }

  lemma CleanOfIsbnChars(a: string)
    requires AllIsbnChars(a)
    ensures CleanIsbn(a) == a
  {
    FilterKeepsAll(a, IsIsbnChar);
  }

  /** A hyphen between two runs of kept characters disappears on cleaning. */
  lemma CleanJoin(a: string, b: string)
    requires AllIsbnChars(a)
    ensures CleanIsbn(a + "-" + b) == a + CleanIsbn(b)
  {
    var h := "-";
    FilterKeepsAll(a, IsIsbnChar);
    FilterDropsAll(h, IsIsbnChar);
    FilterAppend(a, h, IsIsbnChar);
    assert Filter(a + h, IsIsbnChar) == a;
    FilterAppend(a + h, b, IsIsbnChar);
  }

  lemma CleanFormat10(c: string)
    requires |c| == 10 && AllIsbnChars(c)
    ensures CleanIsbn(Format10(c)) == c
  {
    var p1, p2, p3, d := c[..1], c[1..4], c[4..9], [c[9]];
    CleanJoin3(p1, p2, p3, d);
    assert c[4..] == p3 + d;
    assert c[1..] == p2 + c[4..];
    assert c == p1 + c[1..];
  }

  lemma CleanJoin3(p1: string, p2: string, p3: string, d: string)
    requires AllIsbnChars(p1) && AllIsbnChars(p2) && AllIsbnChars(p3) && AllIsbnChars(d)
    ensures CleanIsbn(p1 + "-" + (p2 + "-" + (p3 + "-" + d))) == p1 + (p2 + (p3 + d))
  {
    CleanOfIsbnChars(d);
    CleanJoin(p3, d);
    CleanJoin(p2, p3 + "-" + d);
    CleanJoin(p1, p2 + "-" + (p3 + "-" + d));
  }

  lemma CleanJoin4(p1: string, p2: string, p3: string, p4: string, d: string)
    requires AllIsbnChars(p1) && AllIsbnChars(p2) && AllIsbnChars(p3) && AllIsbnChars(p4) && AllIsbnChars(d)
    ensures CleanIsbn(p1 + "-" + (p2 + "-" + (p3 + "-" + (p4 + "-" + d)))) == p1 + (p2 + (p3 + (p4 + d)))
  {
    CleanOfIsbnChars(d);
    CleanJoin(p4, d);
    CleanJoin(p3, p4 + "-" + d);
    CleanJoin(p2, p3 + "-" + (p4 + "-" + d));
    CleanJoin(p1, p2 + "-" + (p3 + "-" + (p4 + "-" + d)));
  }

  lemma CleanFormat13(c: string)
    requires |c| == 13 && AllIsbnChars(c)
    ensures CleanIsbn(Format13(c)) == c
  {
    var p1, p2, p3, p4, d := c[..3], c[3..4], c[4..7], c[7..12], [c[12]];
    CleanJoin4(p1, p2, p3, p4, d);
    assert c[7..] == p4 + d;
    assert c[4..] == p3 + c[7..];
    assert c[3..] == p2 + c[4..];
    assert c == p1 + c[3..];
  }

  /** The formatted ISBN that a valid input yields is itself valid and
      formats to itself: the stored form is a fixed point. */
  lemma {:induction false} IsbnFormatIsFixedPoint(s: string)
    requires IsbnSpec(s).Some?
    ensures IsbnSpec(IsbnSpec(s).value) == IsbnSpec(s)
  {
    var c := CleanIsbn(s);
    if |c| == 10 {
      CleanFormat10(c);
    } else {
      CleanFormat13(c);
    }
  }

  /** Only an upper-case X is a check character: the same ISBN-10 ending in
      lower-case x is refused although the cleaning step keeps it. */
  lemma LowerCaseCheckRefused(c: string)
    requires |c| == 10 && AllIsbnChars(c) && c[9] == 'x'
    ensures IsbnSpec(c).None?
  {
    CleanOfIsbnChars(c);
  }

  // ---- copy validations ----

  ghost predicate IsbnUsed(copies: seq<Copy>, isbn: string) {
    exists i :: 0 <= i < |copies| && SameIgnoringCase(copies[i].isbn, isbn)
  }

  ghost predicate IsbnUsedByOther(copies: seq<Copy>, id: nat, isbn: string) {
    exists i :: 0 <= i < |copies| && copies[i].id != id && SameIgnoringCase(copies[i].isbn, isbn)
  }

  function MatchesIsbn(isbn: string): Copy -> bool {
    (c: Copy) => SameIgnoringCase(c.isbn, isbn)
  }

  function OtherMatchesIsbn(id: nat, isbn: string): Copy -> bool {
    (c: Copy) => c.id != id && SameIgnoringCase(c.isbn, isbn)
  }

  /** `createCopyValidation`: refused when some copy has this ISBN, compared ignoring case. */
  function CreateCopyValidation(copies: seq<Copy>, isbn: string): (r: Option<Reason>)
    ensures r.None? <==> !IsbnUsed(copies, isbn)
    ensures r.Some? ==> r.value == IsbnTaken
  {
    if FindFirst(copies, MatchesIsbn(isbn)).Some? then Some(IsbnTaken) else None
  }

  /** `editCopyValidation`: as above, but the copy being edited does not count. */
  function EditCopyValidation(copies: seq<Copy>, id: nat, isbn: string): (r: Option<Reason>)
    ensures r.None? <==> !IsbnUsedByOther(copies, id, isbn)
    ensures r.Some? ==> r.value == IsbnTaken
  {
    if FindFirst(copies, OtherMatchesIsbn(id, isbn)).Some? then Some(IsbnTaken) else None
  }

  /** `deleteCopyValidation`: a copy out on loan cannot be deleted. */
  function DeleteCopyValidation(copy: Copy): (r: Option<Reason>)
    ensures r.None? <==> !copy.isLoaned
    ensures r.Some? ==> r.value == CopyLoaned
  {
    if copy.isLoaned then Some(CopyLoaned) else None
  }

  /** `getCopyForLoan`: the first copy in table order that is not out on
      loan. It does not look at the book: the copy may belong to any book. */
  function CopyForLoan(copies: seq<Copy>): (r: Option<nat>)
    ensures r.Some? ==> r.value < |copies| && !copies[r.value].isLoaned
    ensures r.Some? ==> forall j :: 0 <= j < r.value ==> copies[j].isLoaned
    ensures r.None? <==> forall j :: 0 <= j < |copies| ==> copies[j].isLoaned
  {
    FindFirst(copies, (c: Copy) => !c.isLoaned)
  }

  /** Because the book is not consulted, a request can be handed a copy of
      another book: with a free copy of book 2 first in the table and no free
      copy of book 1, the copy chosen for book 1 belongs to book 2. */
  lemma CopyForLoanIgnoresBook(a: Copy, b: Copy)
    requires a.bookId == 2 && !a.isLoaned && b.bookId == 1 && b.isLoaned
    ensures CopyForLoan([a, b]) == Some(0) && [a, b][0].bookId != 1
  {
  }
}
