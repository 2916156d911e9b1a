/** String helpers standing in for the Python built-ins the validator uses:
    str.lower, str.endswith, str.join, str.strip, str(int) and format(x, '.6f'). */
module Text {

  /** Python's str.lower on one character, for the ASCII letters. No other character
      lower-cases to one of the letters the validator compares against (s, h, p, z, i). */
  function LowerChar(c: char): char
  {
    if 'A' <= c <= 'Z' then (c as int + 32) as char else c
  }

  function Lower(s: string): (r: string)
    ensures |r| == |s|
    ensures forall i :: 0 <= i < |s| ==> r[i] == LowerChar(s[i])
  {
    seq(|s|, i requires 0 <= i < |s| => LowerChar(s[i]))
  }

  predicate EndsWith(s: string, suffix: string)
  {
    |suffix| <= |s| && s[|s| - |suffix|..] == suffix
  }

  predicate StartsWith(s: string, prefix: string)
  {
    |prefix| <= |s| && s[..|prefix|] == prefix
  }

  /** The index of the last occurrence of `c` in `s`, or -1 (Python's str.rfind). */
  function LastIndexOf(s: string, c: char): (r: int)
    ensures -1 <= r < |s|
    ensures r >= 0 ==> s[r] == c
    ensures forall i :: r < i < |s| ==> s[i] != c
  {
    if |s| == 0 then -1
    else if s[|s| - 1] == c then |s| - 1
    else LastIndexOf(s[..|s| - 1], c)
  }

  /** The postcondition of LastIndexOf determines its result. */
  lemma LastIndexOfUnique(s: string, c: char, k: int)
    requires -1 <= k < |s|
    requires k >= 0 ==> s[k] == c
    requires forall i :: k < i < |s| ==> s[i] != c
    ensures LastIndexOf(s, c) == k
  {
  }

  /** `sep.join(parts)`. */
  function Join(parts: seq<string>, sep: string): string
  {
    if |parts| == 0 then ""
    else if |parts| == 1 then parts[0]
    else parts[0] + sep + Join(parts[1..], sep)
  }

  /** Joining one more part puts a separator and that part at the end. */
  lemma {:induction false} JoinSnoc(parts: seq<string>, sep: string, last: string)
    requires parts != []
    ensures Join(parts + [last], sep) == Join(parts, sep) + sep + last
  {
    if |parts| == 1 {
      assert (parts + [last])[1..] == [last];
    } else {
      assert (parts + [last])[1..] == parts[1..] + [last];
      JoinSnoc(parts[1..], sep, last);
    }
  }

  /** A joined list ends with its last part, preceded by the separator when there are
      at least two parts. */
  lemma JoinEndsWithLast(parts: seq<string>, sep: string)
    requires parts != []
    ensures EndsWith(Join(parts, sep), parts[|parts| - 1])
    ensures |parts| >= 2 ==> EndsWith(Join(parts, sep), sep + parts[|parts| - 1])
  {
    var n := |parts|;
    if n >= 2 {
      assert parts == parts[..n - 1] + [parts[n - 1]];
      JoinSnoc(parts[..n - 1], sep, parts[n - 1]);
      var j := Join(parts, sep);
      assert j == Join(parts[..n - 1], sep) + (sep + parts[n - 1]);
      assert j[|j| - |sep + parts[n - 1]|..] == sep + parts[n - 1];
      assert j[|j| - |parts[n - 1]|..] == parts[n - 1];
    }
  }

  /** Appending lists one after another appends their concatenation. */
  lemma AppendTwo<T>(a: seq<T>, b: seq<T>, c: seq<T>)
    ensures a + b + c == a + (b + c)
  {
  }

  lemma AppendPair<T>(a: seq<T>, x: T, y: T)
    ensures a + [x] + [y] == a + [x, y]
  {
  }

  lemma AppendThree<T>(a: seq<T>, b: seq<T>, c: seq<T>, d: seq<T>)
    ensures a + b + c + d == a + (b + c + d)
  {
  }

  lemma AppendFour<T>(a: seq<T>, b: seq<T>, c: seq<T>, d: seq<T>, e: seq<T>)
    ensures a + b + c + d + e == a + (b + c + d + e)
  {
  }

  /** A joined list of at least four parts ends with its last three parts, each after
      a separator. */
  lemma JoinEndsWithLastThree(parts: seq<string>, sep: string)
    requires |parts| >= 4
    ensures var n := |parts|;
            EndsWith(Join(parts, sep), sep + parts[n - 3] + sep + parts[n - 2] + sep + parts[n - 1])
  {
    var n := |parts|;
    var init := parts[..n - 3];
    var a, b, c := parts[n - 3], parts[n - 2], parts[n - 1];
    assert parts == init + [a] + [b] + [c];
    JoinSnoc(init, sep, a);
    JoinSnoc(init + [a], sep, b);
    JoinSnoc(init + [a] + [b], sep, c);
    var front := Join(init, sep);
    var middle := sep + a + sep + b;
    AppendFour(front, sep, a, sep, b);
    AppendThree(front, middle, sep, c);
    var tail := middle + sep + c;
    var j := Join(parts, sep);
    assert j == front + tail;
    assert j[|j| - |tail|..] == tail;
  }

  /** `c * n` for a one-character string. */
  function Repeat(c: char, n: nat): string
  {
    seq(n, _ => c)
  }

  /** Characters for which Python's str.isspace holds, the ones str.strip removes. */
  predicate IsSpace(c: char)
  {
    c == ' ' || '\t' <= c <= '\r' || '\U{1C}' <= c <= '\U{1F}' || c == '\U{85}' || c == '\U{A0}'
    || c == '\U{1680}' || '\U{2000}' <= c <= '\U{200A}' || c == '\U{2028}' || c == '\U{2029}'
    || c == '\U{202F}' || c == '\U{205F}' || c == '\U{3000}'
  }

  /** `s.strip()` is non-empty. */
  predicate HasNonSpace(s: string)
  {
    exists i :: 0 <= i < |s| && !IsSpace(s[i])
  }

  function DigitChar(d: nat): char
    requires d < 10
  {
    "0123456789"[d]
  }

  predicate IsDigit(c: char)
  {
    '0' <= c <= '9'
  }

  /** `str(n)` for a natural number. */
  function NatToString(n: nat): (r: string)
    ensures |r| >= 1
    ensures forall i :: 0 <= i < |r| ==> IsDigit(r[i])
  {
    if n < 10 then [DigitChar(n)] else NatToString(n / 10) + [DigitChar(n % 10)]
  }

  /** `int(s)` for a string of decimal digits. */
  function ParseNat(s: string): nat
    requires forall i :: 0 <= i < |s| ==> IsDigit(s[i])
  {
    if s == [] then 0
    else
      assert IsDigit(s[|s| - 1]);
      10 * ParseNat(s[..|s| - 1]) + (s[|s| - 1] as int - '0' as int)
  }

  /** Decimal rendering can be read back: the count a message states is the count. */
  lemma {:induction false} ParseNatToString(n: nat)
    ensures ParseNat(NatToString(n)) == n
  {
    var s := NatToString(n);
    if n >= 10 {
      ParseNatToString(n / 10);
      assert s[..|s| - 1] == NatToString(n / 10);
    }
  }

  /** `str(i)` for an integer. */
  function IntToString(i: int): string
  {
    if i < 0 then "-" + NatToString(-i) else NatToString(i)
  }

  /** The last `k` decimal digits of `n`, zero-padded. */
  function FixedDigits(n: nat, k: nat): (r: string)
    ensures |r| == k
  {
    if k == 0 then "" else FixedDigits(n / 10, k - 1) + [DigitChar(n % 10)]
  }

  /** `format(x, '.6f')` for a finite value: the exact value rounded to six decimals,
      ties to even, with the sign kept. */
  function Fixed6(x: real): string
  {
    var scaled := (if x < 0.0 then -x else x) * 1000000.0;
    var whole := scaled.Floor;
    var fraction := scaled - whole as real;
    var rounded: nat := if fraction > 0.5 || (fraction == 0.5 && whole % 2 == 1) then whole + 1 else whole;
    (if x < 0.0 then "-" else "") + NatToString(rounded / 1000000) + "." + FixedDigits(rounded % 1000000, 6)
  }
}
