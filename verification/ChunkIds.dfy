/** The chunk ids `f"{doc_id}#{i:04d}"` of `benchmarks/enterprise_rag.py`: no two chunks share one. */
module ChunkIds {

  const DIGITS := "0123456789"

  function Digits(n: nat): string {
    if n < 10 then [DIGITS[n]] else Digits(n / 10) + [DIGITS[n % 10]]
  }

  function ZeroPad(s: string, width: nat): string
    decreases width - |s|
  {
    if |s| >= width then s else ZeroPad("0" + s, width)
  }

  function ChunkId(docId: string, i: nat): string {
    docId + "#" + ZeroPad(Digits(i), 4)
  }

  function DigitValue(c: char): nat {
    if '0' <= c <= '9' then (c - '0') as nat else 0
  }

  /** Reads a numeral back, ignoring leading zeros. */
  function Value(s: string): nat {
    if s == "" then 0 else 10 * Value(s[..|s| - 1]) + DigitValue(s[|s| - 1])
  }

  predicate Numeral(s: string) {
    forall k :: 0 <= k < |s| ==> '0' <= s[k] <= '9'
  }

  lemma {:induction false} DigitsRead(n: nat)
    ensures Numeral(Digits(n)) && Value(Digits(n)) == n
  {
    if n >= 10 {
      DigitsRead(n / 10);
      var front, last := Digits(n / 10), DIGITS[n % 10];
      assert Digits(n) == front + [last] && DigitValue(last) == n % 10;
      hide Digits;
      assert (front + [last])[..|front|] == front;
    } else {
      assert Digits(n)[..0] == "";
    }
  }

  lemma {:induction false} LeadingZero(s: string)
    ensures Value("0" + s) == Value(s)
  {
    if s == "" {
      assert ("0" + s)[..0] == "";
    } else {
      LeadingZero(s[..|s| - 1]);
      assert ("0" + s)[..|s|] == "0" + s[..|s| - 1];
    }
  }

  lemma {:induction false} PadReads(s: string, width: nat)
    requires Numeral(s)
    ensures Numeral(ZeroPad(s, width)) && Value(ZeroPad(s, width)) == Value(s)
    decreases width - |s|
  {
    if |s| < width {
      LeadingZero(s);
      PadReads("0" + s, width);
    }
  }

  /** A document and an index give an id no other pair gives, whatever the document ids contain. */
  lemma ChunkIdInjective(a: string, i: nat, b: string, j: nat)
    requires ChunkId(a, i) == ChunkId(b, j)
    ensures a == b && i == j
  {
    DigitsRead(i);
    DigitsRead(j);
    PadReads(Digits(i), 4);
    PadReads(Digits(j), 4);
    var x, y := ZeroPad(Digits(i), 4), ZeroPad(Digits(j), 4);
    SplitAtLastHash(a, x, b, y);
  }

  lemma SplitAtLastHash(a: string, x: string, b: string, y: string)
    requires a + "#" + x == b + "#" + y && Numeral(x) && Numeral(y)
    ensures a == b && x == y
  {
    var s, t := a + "#" + x, b + "#" + y;
    assert s[|a|] == '#' && t[|b|] == '#';
    if |a| < |b| { NoHashAfter(a, x, |b|); } else if |b| < |a| { NoHashAfter(b, y, |a|); }
    assert s[..|a|] == a && t[..|b|] == b;
    assert s[|a| + 1..] == x && t[|b| + 1..] == y;
  }

  lemma NoHashAfter(a: string, x: string, k: nat)
    requires Numeral(x) && |a| < k <= |a| + |x|
    ensures (a + "#" + x)[k] != '#'
  {
    assert (a + "#" + x)[k] == x[k - |a| - 1];
  }

  /** The id is the document's own, a `#`, and the position in at least four digits without needless zeros. */
  lemma ChunkIdReads(docId: string, i: nat) returns (number: string)
    ensures ChunkId(docId, i) == docId + "#" + number
    ensures Numeral(number) && Value(number) == i && |number| >= 4 && (|number| > 4 ==> number[0] != '0')
  {
    number := ZeroPad(Digits(i), 4);
    DigitsRead(i);
    PadReads(Digits(i), 4);
    PadLength(Digits(i), 4);
    LeadingDigit(i);
  }

  lemma {:induction false} PadLength(s: string, width: nat)
    ensures |ZeroPad(s, width)| == if |s| < width then width else |s|
    ensures |s| >= width ==> ZeroPad(s, width) == s
    decreases width - |s|
  {
    if |s| < width { PadLength("0" + s, width); }
  }

  lemma {:induction false} LeadingDigit(n: nat)
    ensures |Digits(n)| > 0 && (n > 0 ==> Digits(n)[0] != '0') && (|Digits(n)| > 1 ==> n >= 10)
  {
    if n >= 10 { LeadingDigit(n / 10); }
  }
}
