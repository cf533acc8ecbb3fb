/** The few operations of Python's `str` that the classifier relies on:
    `strip()`, `split(sep)`, `sep.join(xs)`, `lower()` and the `in`
    substring test. Strings are sequences of Unicode scalar values. */
module PyStr {

  datatype Option<+T> = None | Some(value: T)

  /** Python's `str.isspace()` for one character: the characters that
      `str.strip()` with no argument removes. */
  predicate IsSpace(c: char) {
    || ('\t' <= c <= '\r')
    || ('\U{1C}' <= c <= '\U{1F}')
    || c == ' '
    || c == '\U{85}'
    || c == '\U{A0}'
    || c == '\U{1680}'
    || ('\U{2000}' <= c <= '\U{200A}')
    || c == '\U{2028}'
    || c == '\U{2029}'
    || c == '\U{202F}'
    || c == '\U{205F}'
    || c == '\U{3000}'
  }

  /** `sub` starts at index `k` of `s`. */
  predicate OccursAt(s: string, sub: string, k: nat) {
    k + |sub| <= |s| && s[k..k + |sub|] == sub
  }

  // ---------------------------------------------------------------------
  // strip()

  /** Number of leading whitespace characters of `s`. */
  function LeadingSpaces(s: string): (n: nat)
    ensures n <= |s|
    ensures forall k :: 0 <= k < n ==> IsSpace(s[k])
    ensures n < |s| ==> !IsSpace(s[n])
  {
    if |s| > 0 && IsSpace(s[0]) then 1 + LeadingSpaces(s[1..]) else 0
  }

  /** Number of trailing whitespace characters of `s`. */
  function TrailingSpaces(s: string): (n: nat)
    ensures n <= |s|
    ensures forall k :: |s| - n <= k < |s| ==> IsSpace(s[k])
    ensures n < |s| ==> !IsSpace(s[|s| - n - 1])
  {
    if |s| > 0 && IsSpace(s[|s| - 1]) then 1 + TrailingSpaces(s[..|s| - 1]) else 0
  }

  /** `r` stands at index `i` of `s`, and everything of `s` outside it is
      whitespace. */
  predicate KeptAt(s: string, r: string, i: nat) {
    && OccursAt(s, r, i)
    && (forall k :: 0 <= k < i ==> IsSpace(s[k]))
    && (forall k :: i + |r| <= k < |s| ==> IsSpace(s[k]))
  }

  /** `s.strip()`: `s[i..j]` where everything outside is whitespace and,
      unless the result is empty, its first and last characters are not. */
  function Strip(s: string): (r: string)
    ensures |r| <= |s|
    ensures exists i: nat :: KeptAt(s, r, i)
    ensures |r| > 0 ==> !IsSpace(r[0]) && !IsSpace(r[|r| - 1])
    ensures |r| == 0 ==> forall k :: 0 <= k < |s| ==> IsSpace(s[k])
  {
    var i := LeadingSpaces(s);
    var t := s[i..];
    var r := t[..|t| - TrailingSpaces(t)];
    assert OccursAt(s, r, i);
    assert forall k :: i + |r| <= k < |s| ==> s[k] == t[k - i];
    assert KeptAt(s, r, i);
    r
  }

  /** When `s` starts with a non-space and has a non-space at `k`, its
      strip is a prefix of it that reaches past `k`. */
  lemma StripKeepsFront(s: string, k: nat)
    requires k < |s| && !IsSpace(s[0]) && !IsSpace(s[k])
    ensures k < |Strip(s)| && Strip(s) == s[..|Strip(s)|]
  {
    var r := Strip(s);
    var i: nat :| KeptAt(s, r, i);
    assert i == 0;
    assert k < i + |r|;
  }

  /** A string that neither starts nor ends with whitespace is its own
      strip; in particular stripping twice changes nothing. */
  lemma StripUnchanged(s: string)
    requires |s| > 0 ==> !IsSpace(s[0]) && !IsSpace(s[|s| - 1])
    ensures Strip(s) == s
  {
    assert LeadingSpaces(s) == 0;
    assert s[0..] == s;
    assert TrailingSpaces(s) == 0;
  }

  /** Leading whitespace does not survive a strip. */
  lemma StripSkipsLeadingSpace(s: string)
    requires |s| > 0 && IsSpace(s[0])
    ensures Strip(s) == Strip(s[1..])
  {
    var i := LeadingSpaces(s[1..]);
    assert s[1 + i..] == s[1..][i..];
  }

  /** Stripping twice is stripping once. */
  lemma StripIdempotent(s: string)
    ensures Strip(Strip(s)) == Strip(s)
  {
    StripUnchanged(Strip(s));
  }

  // ---------------------------------------------------------------------
  // find() and `in`

  /** The first index, from `i` on, at which `sub` occurs in `s`. */
  function FindFrom(s: string, sub: string, i: nat): (r: Option<nat>)
    ensures r.Some? ==> i <= r.value && OccursAt(s, sub, r.value)
    ensures r.Some? ==> forall k :: i <= k < r.value ==> !OccursAt(s, sub, k)
    ensures r.None? ==> forall k :: i <= k ==> !OccursAt(s, sub, k)
    decreases |s| - i
  {
    if |s| < i + |sub| then None
    else if OccursAt(s, sub, i) then Some(i)
    else FindFrom(s, sub, i + 1)
  }

  /** `s.find(sub)` as an option: the first index at which `sub` occurs. */
  function Find(s: string, sub: string): (r: Option<nat>)
    ensures r.Some? ==> OccursAt(s, sub, r.value)
    ensures r.Some? ==> forall k :: 0 <= k < r.value ==> !OccursAt(s, sub, k)
    ensures r.None? ==> forall k :: 0 <= k ==> !OccursAt(s, sub, k)
  {
    FindFrom(s, sub, 0)
  }

  /** A needle one of whose characters is absent from `s` is not found. */
  lemma FindAbsent(s: string, sub: string, j: nat)
    requires j < |sub| && sub[j] !in s
    ensures Find(s, sub) == None
  {
    forall k: nat | k + |sub| <= |s|
      ensures !OccursAt(s, sub, k)
    {
      assert s[k..k + |sub|][j] == s[k + j];
    }
  }

  /** The first occurrence is what `Find` reports. */
  lemma FindFirst(s: string, sub: string, k: nat)
    requires OccursAt(s, sub, k)
    requires forall j :: 0 <= j < k ==> !OccursAt(s, sub, j)
    ensures Find(s, sub) == Some(k)
  {
  }

  /** Python's `sub in s`. */
  predicate Contains(s: string, sub: string) {
    Find(s, sub).Some?
  }

  /** `Contains` means an occurrence exists, in both directions. */
  lemma ContainsIffOccurs(s: string, sub: string)
    ensures Contains(s, sub) <==> exists k: nat :: OccursAt(s, sub, k)
  {
    if Contains(s, sub) {
      assert OccursAt(s, sub, Find(s, sub).value);
    }
  }

  /** No occurrence in `s` means none in any slice of it. */
  lemma {:induction false} NotContainsSlice(s: string, sub: string, i: nat, j: nat)
    requires i <= j <= |s|
    requires !Contains(s, sub)
    ensures !Contains(s[i..j], sub)
  {
    if Contains(s[i..j], sub) {
      var k := Find(s[i..j], sub).value;
      SliceOfSlice(s, i, j, k, k + |sub|);
      assert OccursAt(s, sub, i + k);
      assert false;
    }
  }

  /** A slice of a slice is a slice of the original. */
  lemma SliceOfSlice(s: string, i: nat, j: nat, a: nat, b: nat)
    requires i <= j <= |s| && a <= b <= j - i
    ensures s[i..j][a..b] == s[i + a..i + b]
  {
    assert forall t :: 0 <= t < b - a ==> s[i..j][a..b][t] == s[i + a..i + b][t];
  }

  // ---------------------------------------------------------------------
  // split() and join()

  /** `s.split(sep)`: cut at each occurrence of `sep`, scanning left to
      right. Python raises on an empty separator, hence the requires. */
  function Split(s: string, sep: string): (r: seq<string>)
    requires |sep| > 0
    ensures |r| >= 1
    decreases |s|
  {
    var found := Find(s, sep);
    if found.None? then [s]
    else [s[..found.value]] + Split(s[found.value + |sep|..], sep)
  }

  /** No piece of a split contains the separator. */
  lemma {:induction false} SplitPiecesFree(s: string, sep: string)
    requires |sep| > 0
    ensures forall i :: 0 <= i < |Split(s, sep)| ==> !Contains(Split(s, sep)[i], sep)
    decreases |s|
  {
    match Find(s, sep)
    case None =>
      SplitWithout(s, sep);
    case Some(k) =>
      SplitAt(s, sep, k);
      BeforeFirst(s, sep, k);
      SplitPiecesFree(s[k + |sep|..], sep);
  }

  /** What stands before the first occurrence does not contain it. */
  lemma BeforeFirst(s: string, sep: string, k: nat)
    requires |sep| > 0 && Find(s, sep) == Some(k)
    ensures !Contains(s[..k], sep)
  {
    forall j: nat | j + |sep| <= k
      ensures !OccursAt(s[..k], sep, j)
    {
      assert s[..k][j..j + |sep|] == s[j..j + |sep|];
      assert !OccursAt(s, sep, j);
    }
  }

  /** `sep.join(xs)`. */
  function Join(xs: seq<string>, sep: string): string {
    if |xs| == 0 then ""
    else if |xs| == 1 then xs[0]
    else xs[0] + sep + Join(xs[1..], sep)
  }

  /** Past the first separator, the split goes on with the rest. */
  lemma SplitAt(s: string, sep: string, k: nat)
    requires |sep| > 0
    requires Find(s, sep) == Some(k)
    ensures k + |sep| <= |s|
    ensures Split(s, sep) == [s[..k]] + Split(s[k + |sep|..], sep)
  {

  }

  /** Without a separator there is one piece, the whole string. */
  lemma SplitWithout(s: string, sep: string)
    requires |sep| > 0 && Find(s, sep) == None
    ensures Split(s, sep) == [s]
  {
  }

  /** A string is what stands before, at and after a slice of it. */
  lemma AroundSlice(s: string, k: nat, n: nat)
    requires k + n <= |s|
    ensures s == s[..k] + s[k..k + n] + s[k + n..]
  {
  }

  /** Joining the pieces of a split with the same separator gives the
      original string back. */
  lemma {:induction false} JoinSplit(s: string, sep: string)
    requires |sep| > 0
    ensures Join(Split(s, sep), sep) == s
    decreases |s|
  {
    match Find(s, sep)
    case None =>
      SplitWithout(s, sep);
    case Some(k) =>
      SplitAt(s, sep, k);
      var rest := s[k + |sep|..];
      JoinSplit(rest, sep);
      JoinCons(s[..k], Split(rest, sep), sep);
      AroundSlice(s, k, |sep|);
  }

  /** Joining a non-empty tail after a head puts the separator between. */
  lemma JoinCons(x: string, ys: seq<string>, sep: string)
    requires |ys| >= 1
    ensures Join([x] + ys, sep) == x + sep + Join(ys, sep)
  {
    assert ([x] + ys)[1..] == ys;
  }

  /** Where element `i` of `xs` starts in `Join(xs, sep)`. */
  function JoinOffset(xs: seq<string>, sep: string, i: nat): nat
    requires i <= |xs|
  {
    if i == 0 then 0 else JoinOffset(xs, sep, i - 1) + |xs[i - 1]| + |sep|
  }

  /** Every element stands verbatim in the joined string, one after the
      other, separated by `sep`. */
  lemma {:induction false} JoinPlaces(xs: seq<string>, sep: string, i: nat)
    requires i < |xs|
    ensures OccursAt(Join(xs, sep), xs[i], JoinOffset(xs, sep, i))
    ensures i + 1 < |xs| ==> OccursAt(Join(xs, sep), sep, JoinOffset(xs, sep, i) + |xs[i]|)
    decreases |xs|
  {
    if |xs| == 1 {
      assert xs[0][0..|xs[0]|] == xs[0];
    } else {
      var tail := xs[1..];
      assert xs == [xs[0]] + tail;
      JoinCons(xs[0], tail, sep);
      var lead := xs[0] + sep;
      assert Join(xs, sep) == lead + Join(tail, sep);
      if i == 0 {
        assert OccursAt(lead, xs[0], 0);
        assert OccursAt(lead, sep, |xs[0]|);
        OccursInPrefix(lead, Join(tail, sep), xs[0], 0);
        OccursInPrefix(lead, Join(tail, sep), sep, |xs[0]|);
      } else {
        JoinPlaces(tail, sep, i - 1);
        ShiftedOffset(xs, sep, i);
        var o := JoinOffset(tail, sep, i - 1);
        OccursAfterPrefix(lead, Join(tail, sep), xs[i], o);
        if i + 1 < |xs| {
          OccursAfterPrefix(lead, Join(tail, sep), sep, o + |xs[i]|);
        }
      }
    }
  }

  /** An occurrence in `a` is one in `a + b` at the same index. */
  lemma OccursInPrefix(a: string, b: string, sub: string, k: nat)
    requires OccursAt(a, sub, k)
    ensures OccursAt(a + b, sub, k)
  {
    assert (a + b)[k..k + |sub|] == a[k..k + |sub|];
  }

  /** An occurrence in `b` is one in `a + b`, shifted by `|a|`. */
  lemma OccursAfterPrefix(a: string, b: string, sub: string, k: nat)
    requires OccursAt(b, sub, k)
    ensures OccursAt(a + b, sub, |a| + k)
  {
    assert (a + b)[|a| + k..|a| + k + |sub|] == b[k..k + |sub|];
  }

  /** Dropping the first element shifts every offset by its length plus
      the separator. */
  lemma {:induction false} ShiftedOffset(xs: seq<string>, sep: string, i: nat)
    requires 1 <= i <= |xs|
    ensures JoinOffset(xs, sep, i) == |xs[0]| + |sep| + JoinOffset(xs[1..], sep, i - 1)
  {
    if i > 1 {
      ShiftedOffset(xs, sep, i - 1);
    }
  }

  /** `s.split(sep)[-1]`. */
  function LastPiece(s: string, sep: string): string
    requires |sep| > 0
  {
    var pieces := Split(s, sep);
    pieces[|pieces| - 1]
  }

  /** The last piece does not contain the separator. */
  lemma LastPieceFree(s: string, sep: string)
    requires |sep| > 0
    ensures !Contains(LastPiece(s, sep), sep)
  {
    SplitPiecesFree(s, sep);
  }

  /** Past the first separator, the last piece is that of the rest. */
  lemma LastPieceOfRest(s: string, sep: string, k: nat)
    requires |sep| > 0
    requires Find(s, sep) == Some(k)
    ensures k + |sep| <= |s| && LastPiece(s, sep) == LastPiece(s[k + |sep|..], sep)
  {
    SplitAt(s, sep, k);
  }

  /** The last piece of a split is a suffix of the string; unless it is
      the whole string, a separator stands right before it. */
  lemma {:induction false} LastPieceIsSuffix(s: string, sep: string)
    requires |sep| > 0
    ensures |LastPiece(s, sep)| <= |s|
    ensures s[|s| - |LastPiece(s, sep)|..] == LastPiece(s, sep)
    ensures |LastPiece(s, sep)| < |s| ==>
              |LastPiece(s, sep)| + |sep| <= |s| &&
              OccursAt(s, sep, |s| - |LastPiece(s, sep)| - |sep|)
    decreases |s|
  {
    var found := Find(s, sep);
    if found.Some? {
      var k := found.value;
      var i := k + |sep|;
      var rest := s[i..];
      LastPieceOfRest(s, sep, k);
      LastPieceIsSuffix(rest, sep);
      var p := LastPiece(rest, sep);
      SliceOfSlice(s, i, |s|, |rest| - |p|, |rest|);
      assert s[i..][|rest| - |p|..] == s[i..][|rest| - |p|..|rest|];
      if |p| < |rest| {
        OccursInSuffix(s, i, sep, |rest| - |p| - |sep|);
      }
    }
  }

  /** An occurrence in `s[i..]` is one in `s`, shifted by `i`. */
  lemma OccursInSuffix(s: string, i: nat, sub: string, k: nat)
    requires i <= |s|
    requires OccursAt(s[i..], sub, k)
    ensures OccursAt(s, sub, i + k)
  {
    SliceOfSlice(s, i, |s|, k, k + |sub|);
    assert s[i..] == s[i..|s|];
  }

  /** The first piece of a split is a prefix of the string; unless it is
      the whole string, a separator follows it. */
  lemma FirstPieceIsPrefix(s: string, sep: string)
    requires |sep| > 0
    ensures var p := Split(s, sep)[0];
      && |p| <= |s| && s[..|p|] == p
      && (|p| < |s| ==> OccursAt(s, sep, |p|))
      && (Find(s, sep).Some? ==> |p| == Find(s, sep).value)
  {
  }

  /** Text free of `sub` stays free of it once stripped. */
  lemma StripKeepsAbsent(s: string, sub: string)
    requires !Contains(s, sub)
    ensures !Contains(Strip(s), sub)
  {
    var r := Strip(s);
    var i: nat :| KeptAt(s, r, i);
    NotContainsSlice(s, sub, i, i + |r|);
  }

  /** Text free of `sub` has a first piece free of it. */
  lemma FirstPieceKeepsAbsent(s: string, sep: string, sub: string)
    requires |sep| > 0 && !Contains(s, sub)
    ensures !Contains(Split(s, sep)[0], sub)
  {
    var p := Split(s, sep)[0];
    FirstPieceIsPrefix(s, sep);
    NotContainsSlice(s, sub, 0, |p|);
    assert s[0..|p|] == p;
  }

  /** For a one-character needle, `in` is character membership. */
  lemma ContainsChar(s: string, c: char)
    ensures Contains(s, [c]) <==> c in s
  {
    ContainsIffOccurs(s, [c]);
    if c in s {
      var k :| 0 <= k < |s| && s[k] == c;
      assert OccursAt(s, [c], k);
    }
    if Contains(s, [c]) {
      var k := Find(s, [c]).value;
      assert s[k..k + 1][0] == s[k];
    }
  }

  // ---------------------------------------------------------------------
  // lower()

  /** ASCII case folding of one character. */
  function LowerChar(c: char): (d: char)
    ensures 'A' <= c <= 'Z' ==> 'a' <= d <= 'z' && d as int - c as int == 32
    ensures !('A' <= c <= 'Z') ==> d == c
  {
    if 'A' <= c <= 'Z' then (c as int + 32) as char else c
  }

  /** `s.lower()`, restricted to ASCII letters. */
  function Lower(s: string): (r: string)
    ensures |r| == |s|
    ensures forall k :: 0 <= k < |s| ==> r[k] == LowerChar(s[k])
  {
    seq(|s|, k requires 0 <= k < |s| => LowerChar(s[k]))
  }
}
