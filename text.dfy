/** The few operations on Python strings that the backend relies on:
    str.isspace/str.strip, str.rfind over a slice, str.split with a
    limit of one, str.split(".")[-1], str.lower on ASCII letters,
    str.join and the decimal rendering of an int in an f-string. */
module Text {

  /** Python's str.isspace for a single character: the ASCII blanks
      \t \n \v \f \r and space, the separators \x1c-\x1f, and the Unicode
      space characters. */
  predicate IsSpace(c: char)
  {
    c == ' ' || ('\t' <= c <= '\r') || ('\U{1c}' <= c <= '\U{1f}')
    || c == '\U{85}' || c == '\U{a0}' || c == '\U{1680}'
    || ('\U{2000}' <= c <= '\U{200a}') || c == '\U{2028}' || c == '\U{2029}'
    || c == '\U{202f}' || c == '\U{205f}' || c == '\U{3000}'
  }

  predicate AllSpace(s: string)
  {
    forall k :: 0 <= k < |s| ==> IsSpace(s[k])
  }

  /** Number of leading whitespace characters (what lstrip removes). */
  function LeadingSpace(s: string): (i: nat)
    ensures i <= |s|
    ensures AllSpace(s[..i])
    ensures i < |s| ==> !IsSpace(s[i])
  {
    if s == [] || !IsSpace(s[0]) then 0
    else
      var j := LeadingSpace(s[1..]);
      assert s[..j + 1] == [s[0]] + s[1..][..j];
      j + 1
  }

  /** Index where the trailing whitespace begins (what rstrip keeps). */
  function TrailingStart(s: string): (j: nat)
    ensures j <= |s|
    ensures AllSpace(s[j..])
    ensures j > 0 ==> !IsSpace(s[j - 1])
  {
    if s == [] || !IsSpace(s[|s| - 1]) then |s|
    else
      var j := TrailingStart(s[..|s| - 1]);
      assert s[j..] == s[..|s| - 1][j..] + [s[|s| - 1]];
      j
  }

  /** Python's str.strip(): the slice left after removing leading and
      trailing whitespace. */
  function Strip(s: string): (r: string)
    ensures LeadingSpace(s) + |r| <= |s|
    ensures r == s[LeadingSpace(s)..LeadingSpace(s) + |r|]
    ensures AllSpace(s[..LeadingSpace(s)]) && AllSpace(s[LeadingSpace(s) + |r|..])
    ensures r == [] || (!IsSpace(r[0]) && !IsSpace(r[|r| - 1]))
    ensures r == [] <==> AllSpace(s)
  {
    var i := LeadingSpace(s);
    var j := TrailingStart(s);
    if i < j then s[i..j]
    else
      assert i == |s|;
      assert s[..i] == s;
      []
  }

  /** `sub` occurs in `s` starting at index `i`. */
  predicate OccursAt(s: string, sub: string, i: int)
  {
    0 <= i && i + |sub| <= |s| && s[i..i + |sub|] == sub
  }

  /** No occurrence of `sub` lies wholly inside s[lo..hi]. */
  predicate NoneWithin(s: string, sub: string, lo: int, hi: int)
  {
    forall i :: lo <= i <= hi - |sub| ==> !OccursAt(s, sub, i)
  }

  /** `i` is the last occurrence of `sub` lying wholly inside s[lo..hi]. */
  predicate LastWithin(s: string, sub: string, lo: int, hi: int, i: int)
  {
    lo <= i && i + |sub| <= hi && OccursAt(s, sub, i)
    && forall k :: i < k <= hi - |sub| ==> !OccursAt(s, sub, k)
  }

  /** Python's s.rfind(sub, lo, hi) for 0 <= lo <= hi <= len(s): the
      highest index of an occurrence lying wholly inside s[lo:hi], or -1. */
  function RFind(s: string, sub: string, lo: nat, hi: nat): (r: int)
    requires sub != [] && lo <= hi <= |s|
    ensures r == -1 <==> NoneWithin(s, sub, lo, hi)
    ensures r != -1 ==> LastWithin(s, sub, lo, hi, r)
    decreases hi - lo
  {
    if hi - lo < |sub| then -1
    else if s[hi - |sub|..hi] == sub then
      assert OccursAt(s, sub, hi - |sub|);
      hi - |sub|
    else RFind(s, sub, lo, hi - 1)
  }

  /** Python's s.split(sep, 1)[0]: everything before the first
      occurrence of `sep`, or all of `s` when there is none. */
  function SplitHead(s: string, sep: string): (r: string)
    requires sep != []
    ensures r <= s
    ensures forall i :: 0 <= i < |r| ==> !OccursAt(s, sep, i)
    ensures |r| < |s| ==> OccursAt(s, sep, |r|)
  {
    if |s| < |sep| then s
    else if s[..|sep|] == sep then []
    else
      assert !OccursAt(s, sep, 0) by { assert s[0..|sep|] == s[..|sep|]; }
      var t := SplitHead(s[1..], sep);
      assert forall i :: 1 <= i <= |t| ==> (OccursAt(s[1..], sep, i - 1) <==> OccursAt(s, sep, i)) by {
        forall i | 1 <= i <= |t| ensures OccursAt(s[1..], sep, i - 1) <==> OccursAt(s, sep, i) {
          if i + |sep| <= |s| { assert s[1..][i - 1..i - 1 + |sep|] == s[i..i + |sep|]; }
        }
      }
      assert |t| < |s| - 1 ==> s[1..][|t|..|t| + |sep|] == s[|t| + 1..|t| + 1 + |sep|];
      [s[0]] + t
  }

  /** Python's s.split(sep)[-1] for a one-character separator: the text
      after the last `sep`, or all of `s` when there is none. */
  function LastField(s: string, sep: char): (r: string)
    ensures sep !in r
    ensures |r| <= |s| && r == s[|s| - |r|..]
    ensures |r| < |s| ==> s[|s| - |r| - 1] == sep
  {
    if s == [] || s[|s| - 1] == sep then []
    else LastField(s[..|s| - 1], sep) + [s[|s| - 1]]
  }

  /** str.lower() on one character, for the ASCII letters. */
  function LowerChar(c: char): char
  {
    if 'A' <= c <= 'Z' then (c as int + 32) as char else c
  }

  function Lower(s: string): (r: string)
    ensures |r| == |s|
    ensures forall k :: 0 <= k < |s| ==> r[k] == LowerChar(s[k])
  {
    seq(|s|, k requires 0 <= k < |s| => LowerChar(s[k]))
  }

  function TotalLength(parts: seq<string>): nat
  {
    if parts == [] then 0 else TotalLength(parts[..|parts| - 1]) + |parts[|parts| - 1]|
  }

  /** Python's sep.join(parts). */
  function Join(sep: string, parts: seq<string>): (r: string)
    ensures parts != [] ==> |r| == TotalLength(parts) + |sep| * (|parts| - 1)
    ensures parts == [] ==> r == []
  {
    if parts == [] then []
    else if |parts| == 1 then parts[0]
    else Join(sep, parts[..|parts| - 1]) + sep + parts[|parts| - 1]
  }

  /** Where part k begins in sep.join(parts): after the parts before it
      and one separator after each of them. */
  function Offset(sep: string, parts: seq<string>, k: nat): nat
    requires k <= |parts|
  {
    TotalLength(parts[..k]) + k * |sep|
  }

  /** sep.join(parts) is the parts in order with `sep` between each pair:
      part k is found at Offset(k), and a separator ends there for k > 0. */
  lemma JoinAt(sep: string, parts: seq<string>)
    ensures forall k :: 0 <= k < |parts| ==>
      Offset(sep, parts, k) + |parts[k]| <= |Join(sep, parts)|
      && Join(sep, parts)[Offset(sep, parts, k)..Offset(sep, parts, k) + |parts[k]|] == parts[k]
    ensures forall k :: 0 < k < |parts| ==>
      |sep| <= Offset(sep, parts, k) <= |Join(sep, parts)|
      && Join(sep, parts)[Offset(sep, parts, k) - |sep|..Offset(sep, parts, k)] == sep
  {
    forall k | 0 <= k < |parts|
      ensures Offset(sep, parts, k) + |parts[k]| <= |Join(sep, parts)|
      ensures Join(sep, parts)[Offset(sep, parts, k)..Offset(sep, parts, k) + |parts[k]|] == parts[k]
      ensures k > 0 ==> |sep| <= Offset(sep, parts, k) <= |Join(sep, parts)|
      ensures k > 0 ==> Join(sep, parts)[Offset(sep, parts, k) - |sep|..Offset(sep, parts, k)] == sep
    {
      JoinPart(sep, parts, k);
    }
  }

  /** Part k of sep.join(parts), and the separator before it. */
  lemma {:induction false} JoinPart(sep: string, parts: seq<string>, k: nat)
    requires k < |parts|
    ensures Offset(sep, parts, k) + |parts[k]| <= |Join(sep, parts)|
    ensures Join(sep, parts)[Offset(sep, parts, k)..Offset(sep, parts, k) + |parts[k]|] == parts[k]
    ensures k > 0 ==> |sep| <= Offset(sep, parts, k) <= |Join(sep, parts)|
    ensures k > 0 ==> Join(sep, parts)[Offset(sep, parts, k) - |sep|..Offset(sep, parts, k)] == sep
    decreases |parts|
  {
    if k == |parts| - 1 {
      JoinLast(sep, parts);
    } else {
      var init := parts[..|parts| - 1];
      var j := Join(sep, init);
      var r := Join(sep, parts);
      JoinPart(sep, init, k);
      JoinExtends(sep, parts);
      assert parts[..k] == init[..k];
      var o := Offset(sep, init, k);
      assert Offset(sep, parts, k) == o;
      assert init[k] == parts[k];
      assert r[o..o + |parts[k]|] == j[o..o + |parts[k]|];
      if k > 0 {
        assert r[o - |sep|..o] == j[o - |sep|..o];
      }
    }
  }

  /** The last part closes the joined text, after a separator. */
  lemma JoinLast(sep: string, parts: seq<string>)
    requires parts != []
    ensures var k := |parts| - 1;
      && Offset(sep, parts, k) + |parts[k]| == |Join(sep, parts)|
      && Join(sep, parts)[Offset(sep, parts, k)..] == parts[k]
      && (k > 0 ==> |sep| <= Offset(sep, parts, k)
                    && Join(sep, parts)[Offset(sep, parts, k) - |sep|..Offset(sep, parts, k)] == sep)
  {
    var n := |parts|;
    if n == 1 {
      assert parts[..0] == [];
    } else {
      var init := parts[..n - 1];
      var j := Join(sep, init);
      assert Join(sep, parts) == j + sep + parts[n - 1];
      assert parts[..n - 1] == init;
      assert (n - 1) * |sep| == (n - 2) * |sep| + |sep|;
      assert Offset(sep, parts, n - 1) == |j| + |sep|;
    }
  }

  /** Joining one more part leaves the joined text of the others in front. */
  lemma JoinExtends(sep: string, parts: seq<string>)
    requires |parts| >= 2
    ensures var j := Join(sep, parts[..|parts| - 1]);
      |j| <= |Join(sep, parts)| && Join(sep, parts)[..|j|] == j
  {
  }

  predicate IsDigit(c: char)
  {
    '0' <= c <= '9'
  }

  function DigitChar(d: nat): (c: char)
    requires d < 10
    ensures IsDigit(c)
  {
    ('0' as int + d) as char
  }

  /** The number a string of decimal digits denotes. */
  function DecimalValue(s: string): nat
    requires forall k :: 0 <= k < |s| ==> IsDigit(s[k])
  {
    if s == [] then 0
    else
      assert IsDigit(s[|s| - 1]);
      DecimalValue(s[..|s| - 1]) * 10 + (s[|s| - 1] as int - '0' as int)
  }

  /** The decimal text of `n`, as str(n) (or an f-string) renders it. */
  function NatToString(n: nat): (r: string)
    ensures r != []
    ensures forall k :: 0 <= k < |r| ==> IsDigit(r[k])
    ensures DecimalValue(r) == n
    ensures r[0] == '0' ==> r == "0"
  {
    if n < 10 then [DigitChar(n)]
    else
      var r := NatToString(n / 10) + [DigitChar(n % 10)];
      assert r[..|r| - 1] == NatToString(n / 10);
      r
  }
}
