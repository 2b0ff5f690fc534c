/** Small value-level helpers shared by the whole model: an Option type,
    JavaScript's String.prototype.trim, decimal formatting of naturals,
    padStart, join, and the index arithmetic of Array.prototype.slice/splice. */
module Util {

  datatype Option<+T> = None | Some(value: T) {
    function GetOr(default: T): T {
      match this
      case Some(v) => v
      case None => default
    }
  }

  /** The characters JavaScript's trim() removes: WhiteSpace and LineTerminator
      of the ECMAScript grammar (the Zs category written out). */
  predicate IsWhitespace(c: char) {
    c == '\t' || c == '\n' || c == '\U{000B}' || c == '\U{000C}' || c == '\r' || c == ' ' ||
    c == '\U{00A0}' || c == '\U{1680}' || ('\U{2000}' <= c <= '\U{200A}') ||
    c == '\U{2028}' || c == '\U{2029}' || c == '\U{202F}' || c == '\U{205F}' ||
    c == '\U{3000}' || c == '\U{FEFF}'
  }

  predicate AllWhitespace(s: string) {
    forall i :: 0 <= i < |s| ==> IsWhitespace(s[i])
  }

  function TrimStart(s: string): (r: string)
    ensures |r| <= |s| && r == s[|s| - |r|..]
    ensures AllWhitespace(s[..|s| - |r|])
    ensures r == [] || !IsWhitespace(r[0])
  {
    if s == [] || !IsWhitespace(s[0]) then s else TrimStart(s[1..])
  }

  function TrimEnd(s: string): (r: string)
    ensures |r| <= |s| && r == s[..|r|]
    ensures AllWhitespace(s[|r|..])
    ensures r == [] || !IsWhitespace(r[|r| - 1])
  {
    if s == [] || !IsWhitespace(s[|s| - 1]) then s else TrimEnd(s[..|s| - 1])
  }

  /** String.prototype.trim. */
  function Trim(s: string): string {
    TrimEnd(TrimStart(s))
  }

  /** trim() keeps a contiguous middle part, drops only whitespace around it,
      and leaves nothing to trim at either end. */
  lemma TrimSpec(s: string)
    ensures exists i, j :: 0 <= i <= j <= |s| && Trim(s) == s[i..j] &&
                           AllWhitespace(s[..i]) && AllWhitespace(s[j..])
    ensures Trim(s) == [] || (!IsWhitespace(Trim(s)[0]) && !IsWhitespace(Trim(s)[|Trim(s)| - 1]))
  {
    var t := TrimStart(s);
    var i := |s| - |t|;
    var e := TrimEnd(t);
    var j := i + |e|;
    SuffixSlices(s, i, |e|);
    assert t == s[i..];
    assert e == t[..|e|] == s[i..j];
    assert AllWhitespace(t[|e|..]);
    assert s[j..] == t[|e|..];
  }

  lemma SuffixSlices<T>(s: seq<T>, i: nat, k: nat)
    requires i + k <= |s|
    ensures s[i..][..k] == s[i..i + k]
    ensures s[i..][k..] == s[i + k..]
  {
  }

  /** A string that is all whitespace trims to the empty string. */
  lemma {:induction false} TrimBlank(s: string)
    requires AllWhitespace(s)
    ensures Trim(s) == []
  {
    if s != [] {
      assert AllWhitespace(s[1..]);
      TrimBlank(s[1..]);
    }
  }

  function DigitChar(d: nat): (c: char)
    requires d < 10
  {
    ['0', '1', '2', '3', '4', '5', '6', '7', '8', '9'][d]
  }

  predicate IsDigit(c: char) {
    '0' <= c <= '9'
  }

  predicate AllDigits(s: string) {
    forall i :: 0 <= i < |s| ==> IsDigit(s[i])
  }

  /** String(n) for a non-negative integer: decimal, no leading zeros. */
  function NatToString(n: nat): (s: string)
    ensures |s| > 0 && AllDigits(s)
    ensures |s| > 1 ==> s[0] != '0'
  {
    if n < 10 then [DigitChar(n)] else NatToString(n / 10) + [DigitChar(n % 10)]
  }

  lemma DigitCharInjective(a: nat, b: nat)
    requires a < 10 && b < 10 && DigitChar(a) == DigitChar(b)
    ensures a == b
  {
  }

  /** Distinct numbers have distinct decimal strings. */
  lemma {:induction false} NatToStringInjective(a: nat, b: nat)
    requires NatToString(a) == NatToString(b)
    ensures a == b
  {
    var s := NatToString(a);
    if a < 10 && b < 10 {
      DigitCharInjective(a, b);
    } else if a >= 10 && b >= 10 {
      var sa, sb := NatToString(a / 10), NatToString(b / 10);
      assert sa + [DigitChar(a % 10)] == sb + [DigitChar(b % 10)];
      assert |sa| == |sb|;
      assert sa == (sa + [DigitChar(a % 10)])[..|sa|];
      assert sb == (sb + [DigitChar(b % 10)])[..|sb|];
      NatToStringInjective(a / 10, b / 10);
      assert DigitChar(a % 10) == s[|s| - 1] == DigitChar(b % 10);
      DigitCharInjective(a % 10, b % 10);
    }
  }

  /** String.prototype.padStart with a one-character pad. */
  function PadStart(s: string, width: nat, pad: char): (r: string)
    ensures |r| == if |s| >= width then |s| else width
    ensures r[|r| - |s|..] == s
    ensures forall i :: 0 <= i < |r| - |s| ==> r[i] == pad
  {
    if |s| >= width then s else seq(width - |s|, _ => pad) + s
  }

  /** Array.prototype.join with a one-character separator, for numbers. */
  function JoinNats(xs: seq<nat>, sep: char): string {
    if xs == [] then ""
    else if |xs| == 1 then NatToString(xs[0])
    else NatToString(xs[0]) + [sep] + JoinNats(xs[1..], sep)
  }

  /** A joined key contains the separator exactly when there are two or more parts. */
  lemma {:induction false} JoinNatsSeparator(xs: seq<nat>, sep: char)
    requires !IsDigit(sep)
    ensures |xs| >= 2 <==> sep in JoinNats(xs, sep)
  {
    if |xs| == 1 {
      var d := NatToString(xs[0]);
      assert forall i :: 0 <= i < |d| ==> d[i] != sep;
    } else if |xs| >= 2 {
      assert JoinNats(xs, sep)[|NatToString(xs[0])|] == sep;
    }
  }

  /** The position Array.prototype.slice/splice use for a relative start. */
  function RelativeIndex(k: int, len: nat): (r: nat)
    ensures r <= len
    ensures k >= 0 ==> r == if k < len then k else len
    ensures k < 0 ==> r == if len + k > 0 then len + k else 0
  {
    if k < 0 then (if len + k > 0 then len + k else 0) else if k < len then k else len
  }

  /** a.slice(start) */
  function SliceFrom<T>(s: seq<T>, start: int): seq<T> {
    s[RelativeIndex(start, |s|)..]
  }

  /** a.slice(start, end) */
  function Slice<T>(s: seq<T>, start: int, end: int): seq<T> {
    var b := RelativeIndex(start, |s|);
    var e := RelativeIndex(end, |s|);
    if b <= e then s[b..e] else []
  }

  /** a.slice(-n): the last n elements when n > 0 (all of them when n >= |a|),
      but ALL elements when n == 0, since -0 is 0 for slice. */
  lemma SliceLast<T>(s: seq<T>, n: int)
    ensures n > 0 ==> SliceFrom(s, -n) == s[|s| - (if n < |s| then n else |s|)..]
    ensures n == 0 ==> SliceFrom(s, -n) == s
    ensures n < 0 ==> SliceFrom(s, -n) == s[(if -n < |s| then -n else |s|)..]
  {
  }

  /** a.splice(start, 1) on the array: removes the element at the relative start, if any. */
  function SpliceOne<T>(s: seq<T>, start: int): (r: seq<T>)
    ensures var k := RelativeIndex(start, |s|);
            k < |s| ==>
              |r| == |s| - 1 && multiset(r) + multiset{s[k]} == multiset(s) &&
              forall j :: 0 <= j < |r| ==> r[j] == if j < k then s[j] else s[j + 1]
    ensures RelativeIndex(start, |s|) == |s| ==> r == s
  {
    var k := RelativeIndex(start, |s|);
    if k < |s| then
      assert s == s[..k] + [s[k]] + s[k + 1..];
      s[..k] + s[k + 1..]
    else s
  }
}
