/** The test-data ISBN generator: "978", nine random digits and the ISBN-13
    check digit. The random digits are the input here. */
module IsbnGen {
  import opened Base
  import opened Chars
  import opened CopyRules

  /** The digit characters of the draws, in order. */
  function Digits(draws: seq<nat>): (s: string)
    requires forall k :: 0 <= k < |draws| ==> draws[k] < 10
    ensures |s| == |draws| && AllDigits(s)
    ensures forall k :: 0 <= k < |draws| ==> DigitValue(s[k]) == draws[k]
  {
    seq(|draws|, k requires 0 <= k < |draws| => DigitChar(draws[k]))
  }

  /** The weight of index i: 3 when i is odd, 1 when it is even. */
  function Weight(i: nat): nat {
    if i % 2 != 0 then 3 else 1
  }

  /** The generator's weighted sum over `enumerate`, the first character of
      `s` standing at index `start`. */
  function WeightedSum(s: string, start: nat): int
    requires AllDigits(s)
  {
    if |s| == 0 then 0 else Weight(start) * DigitValue(s[0]) + WeightedSum(s[1..], start + 1)
  }

  /** `generate_isbn13` with its nine random digits given. */
  function GenerateIsbn13(draws: seq<nat>): (isbn: string)
    requires |draws| == 9 && forall k :: 0 <= k < 9 ==> draws[k] < 10
    ensures |isbn| == 13 && AllDigits(isbn)
    ensures isbn[..3] == "978"
    ensures forall k :: 0 <= k < 9 ==> DigitValue(isbn[3 + k]) == draws[k]
  {
    var prefix := "978" + Digits(draws);
    prefix + [DigitChar(Check13(WeightedSum(prefix, 0)))]
  }

  /** The generator's left-to-right sum is the validator's sum: the first n
      characters summed by the validator, the rest by the generator. */
  lemma {:induction false} WeightedSumSplit(s: string, n: nat)
    requires AllDigits(s) && n <= |s|
    ensures Isbn13Sum(s, n) + WeightedSum(s[n..], n) == WeightedSum(s, 0)
  {
    if n > 0 {
      WeightedSumSplit(s, n - 1);
      assert s[n - 1..][1..] == s[n..];
    }
  }

  /** The validator's sum of the first n characters depends on nothing else. */
  lemma {:induction false} Isbn13SumPrefix(s: string, t: string, n: nat)
    requires n <= |s| && n <= |t| && DigitsUpTo(s, n) && DigitsUpTo(t, n)
    requires s[..n] == t[..n]
    ensures Isbn13Sum(s, n) == Isbn13Sum(t, n)
  {
    if n > 0 {
      assert s[..n - 1] == t[..n - 1] by {
        assert s[..n - 1] == s[..n][..n - 1];
        assert t[..n - 1] == t[..n][..n - 1];
      }
      assert s[n - 1] == s[..n][n - 1] == t[..n][n - 1] == t[n - 1];
      Isbn13SumPrefix(s, t, n - 1);
    }
  }

  /** The last digit is the ISBN-13 check digit of the first twelve, so the
      weighted sum of all thirteen is a multiple of ten. */
  lemma GeneratedChecksum(draws: seq<nat>)
    requires |draws| == 9 && forall k :: 0 <= k < 9 ==> draws[k] < 10
    ensures var isbn := GenerateIsbn13(draws);
      DigitValue(isbn[12]) == Check13(Isbn13Sum(isbn, 12)) && Isbn13Sum(isbn, 13) % 10 == 0
  {
    var isbn := GenerateIsbn13(draws);
    var prefix := "978" + Digits(draws);
    assert isbn[..12] == prefix;
    WeightedSumSplit(prefix, 12);
    assert prefix[12..] == [];
    Isbn13SumPrefix(isbn, prefix, 12);
  }

  /** Round trip: every generated string passes the 13-digit branch of the
      ISBN validation and comes back hyphenated as `978-d-ddd-ddddd-d`. */
  lemma GeneratedIsAccepted(draws: seq<nat>)
    requires |draws| == 9 && forall k :: 0 <= k < 9 ==> draws[k] < 10
    ensures var isbn := GenerateIsbn13(draws);
      IsbnSpec(isbn) == Some(Format13(isbn)) && Format13(isbn)[..4] == "978-"
  {
    var isbn := GenerateIsbn13(draws);
    GeneratedChecksum(draws);
    assert AllIsbnChars(isbn);
    CleanOfIsbnChars(isbn);
    assert DigitsUpTo(isbn, 13);
    Format13Head(isbn);
  }

  /** The first four characters of the hyphenated ISBN-13. */
  lemma Format13Head(c: string)
    requires |c| == 13
    ensures Format13(c)[..4] == c[..3] + "-"
  {
    var f := Format13(c);
    assert f[0] == c[0] && f[1] == c[1] && f[2] == c[2] && f[3] == '-';
  }
}
