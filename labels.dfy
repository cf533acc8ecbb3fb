/** Turning the model's free-text reply into a label (main.py:66-72):
    keep the first line of what follows the last "Category:" cue, then
    return the first configured category it mentions, ignoring case, or
    the cleaned text itself when it mentions none. */
module Labels {
  import opened PyStr

  /** The cue the prompt ends with, which models often echo. */
  const Cue: string := "Category:"

  /** `reply.strip().split("Category:")[-1].strip().split("\n")[0]`. */
  function Clean(reply: string): string {
    Split(Strip(LastPiece(Strip(reply), Cue)), "\n")[0]
  }

  /** The cleaned reply is a single line. */
  lemma CleanIsOneLine(reply: string)
    ensures '\n' !in Clean(reply)
  {
    var segment := Strip(LastPiece(Strip(reply), Cue));
    SplitPiecesFree(segment, "\n");
    ContainsChar(Clean(reply), '\n');
  }

  /** No cue is left in the cleaned reply. */
  lemma CleanHasNoCue(reply: string)
    ensures !Contains(Clean(reply), Cue)
  {
    var p := LastPiece(Strip(reply), Cue);
    LastPieceFree(Strip(reply), Cue);
    StripKeepsAbsent(p, Cue);
    FirstPieceKeepsAbsent(Strip(p), "\n", Cue);
  }

  /** The segment that `Clean` works on is exactly the text after the LAST
      "Category:" of the stripped reply, or all of it if the cue is absent. */
  lemma AfterLastCue(s: string)
    ensures |LastPiece(s, Cue)| <= |s| && s[|s| - |LastPiece(s, Cue)|..] == LastPiece(s, Cue)
    ensures !Contains(s, Cue) ==> LastPiece(s, Cue) == s
    ensures Contains(s, Cue) ==>
              && |LastPiece(s, Cue)| + |Cue| <= |s|
              && OccursAt(s, Cue, |s| - |LastPiece(s, Cue)| - |Cue|)
              && forall k: nat :: |s| - |LastPiece(s, Cue)| - |Cue| < k ==> !OccursAt(s, Cue, k)
  {
    var p := LastPiece(s, Cue);
    LastPieceIsSuffix(s, Cue);
    LastPieceFree(s, Cue);
    if |p| == |s| {
      assert s[0..] == s;
    } else {
      ContainsIffOccurs(s, Cue);
      var c := |s| - |p| - |Cue|;
      forall k: nat | c < k
        ensures !OccursAt(s, Cue, k)
      {
        if k < |s| - |p| {
          NoCueInsideCue(s, c, k);
        } else {
          NoCueInSuffix(s, |s| - |p|, k);
        }
      }
    }
  }

  /** Two occurrences of the cue cannot overlap: its first letter 'C'
      occurs nowhere else in it. */
  lemma NoCueInsideCue(s: string, c: nat, k: nat)
    requires OccursAt(s, Cue, c)
    requires c < k < c + |Cue|
    ensures !OccursAt(s, Cue, k)
  {
    assert s[c..c + |Cue|][k - c] == s[k];
    assert s[k] != 'C';
    if k + |Cue| <= |s| {
      assert s[k..k + |Cue|][0] == s[k];
    }
  }

  /** An occurrence inside a suffix free of the cue cannot exist. */
  lemma NoCueInSuffix(s: string, i: nat, k: nat)
    requires i <= k
    requires i <= |s| && !Contains(s[i..], Cue)
    ensures !OccursAt(s, Cue, k)
  {
    ContainsIffOccurs(s[i..], Cue);
    if k + |Cue| <= |s| {
      var j := k - i;
      SliceOfSlice(s, i, |s|, j, j + |Cue|);
      assert s[i..] == s[i..|s|];
      assert !OccursAt(s[i..], Cue, j);
    }
  }

  /** The cleaned reply is the first line of the stripped segment. */
  lemma CleanIsFirstLine(reply: string)
    ensures var segment := Strip(LastPiece(Strip(reply), Cue));
      var r := Clean(reply);
      && |r| <= |segment| && segment[..|r|] == r
      && (|r| < |segment| ==> segment[|r|] == '\n')
  {
    var segment := Strip(LastPiece(Strip(reply), Cue));
    var r := Clean(reply);
    FirstPieceIsPrefix(segment, "\n");
    if |r| < |segment| {
      assert segment[|r|..|r| + 1][0] == segment[|r|];
    }
  }

  /** Python's `cat.lower() in text.lower()`. */
  predicate Matches(cat: string, text: string) {
    Contains(Lower(text), Lower(cat))
  }

  /** Category `i` is the first one, in configured order, that `text`
      mentions. */
  predicate IsFirstMatch(cats: seq<string>, text: string, i: nat) {
    && i < |cats|
    && Matches(cats[i], text)
    && forall j :: 0 <= j < i ==> !Matches(cats[j], text)
  }

  /** The index of the first category that the text mentions: the
      early-return loop of main.py:69-71. */
  function FirstMatch(cats: seq<string>, text: string): (r: Option<nat>)
    ensures r.Some? ==> IsFirstMatch(cats, text, r.value)
    ensures r.None? ==> forall j :: 0 <= j < |cats| ==> !Matches(cats[j], text)
  {
    if |cats| == 0 then None
    else if Matches(cats[0], text) then Some(0)
    else
      match FirstMatch(cats[1..], text)
      case None => None
      case Some(i) => Some(i + 1)
  }

  /** The label assigned to a reply: the first matching category, else the
      cleaned reply. */
  function Label(reply: string, cats: seq<string>): (r: string)
    ensures forall i: nat :: IsFirstMatch(cats, Clean(reply), i) ==> r == cats[i]
    ensures (forall i :: 0 <= i < |cats| ==> !Matches(cats[i], Clean(reply))) ==>
              r == Clean(reply)
  {
    var text := Clean(reply);
    match FirstMatch(cats, text)
    case Some(m) =>
      assert forall i: nat :: IsFirstMatch(cats, text, i) ==> i == m;
      cats[m]
    case None => text
  }

  /** A label is a configured category or, failing that, the cleaned
      reply; and whenever some category matches, it is a category. */
  lemma LabelIsCategoryOrFallback(reply: string, cats: seq<string>)
    ensures Label(reply, cats) in cats || Label(reply, cats) == Clean(reply)
    ensures (exists i :: 0 <= i < |cats| && Matches(cats[i], Clean(reply))) ==>
              Label(reply, cats) in cats
  {
    var text := Clean(reply);
    var m := FirstMatch(cats, text);
    if m.Some? {
      assert Label(reply, cats) == cats[m.value];
    }
  }

  /** The first line of `s` when its first line break is at index `k`. */
  lemma FirstLineAt(s: string, k: nat)
    requires k < |s| && s[k] == '\n' && '\n' !in s[..k]
    ensures Split(s, "\n")[0] == s[..k]
  {
    assert OccursAt(s, "\n", k);
    forall j | 0 <= j < k
      ensures !OccursAt(s, "\n", j)
    {
      assert s[j] == s[..k][j];
      assert s[j..j + 1][0] == s[j];
    }
    FindFirst(s, "\n", k);
  }

  /** A reply made of the cue and a text `p` with no further cue, where
      `p` is a space and then a non-space and has a non-space at `k`: the
      stripped segment is a prefix of `p` past its space that reaches past
      `k`. */
  lemma EchoedCue(p: string, k: nat)
    requires 1 <= k < |p| && p[0] == ' ' && !IsSpace(p[1]) && !IsSpace(p[k])
    requires !Contains(p, Cue)
    ensures var seg := Strip(LastPiece(Strip(Cue + p), Cue));
      && k <= |seg| < |p|
      && seg == p[1..|seg| + 1]
  {
    var t := Strip(Cue + p);
    EchoKept(p, k);
    AfterEcho(p, |t|);
    var r := p[..|t| - |Cue|];
    assert r[0] == ' ' && r[1] == p[1];
    assert r[|r| - 1] == t[|t| - 1];
    SpaceThenText(r);
  }

  /** Stripping the cue and `p` keeps the cue and `p` up to past `k`. */
  lemma EchoKept(p: string, k: nat)
    requires k < |p| && !IsSpace(p[k])
    ensures var t := Strip(Cue + p);
      |Cue| + k < |t| && t == (Cue + p)[..|t|]
  {
    var reply := Cue + p;
    assert reply[0] == 'C';
    assert reply[|Cue| + k] == p[k];
    StripKeepsFront(reply, |Cue| + k);
  }

  /** Past an echoed cue, with no further cue, the last piece is the rest. */
  lemma AfterEcho(p: string, n: nat)
    requires |Cue| <= n <= |Cue| + |p| && !Contains(p, Cue)
    ensures LastPiece((Cue + p)[..n], Cue) == p[..n - |Cue|]
  {
    var t := (Cue + p)[..n];
    assert t[0..|Cue|] == Cue;
    FindFirst(t, Cue, 0);
    LastPieceOfRest(t, Cue, 0);
    var r := t[|Cue|..];
    assert r == p[0..n - |Cue|];
    NotContainsSlice(p, Cue, 0, n - |Cue|);
    SplitWithout(r, Cue);
  }

  /** A space followed by text with no whitespace at either end strips to
      that text. */
  lemma SpaceThenText(r: string)
    requires |r| >= 2 && r[0] == ' ' && !IsSpace(r[1]) && !IsSpace(r[|r| - 1])
    ensures Strip(r) == r[1..]
  {
    StripSkipsLeadingSpace(r);
    StripUnchanged(r[1..]);
  }

  /** Any prefix of `word`, a line break and more, that keeps at least
      `word`, has `word` as its first line. */
  lemma FirstLineOfPrefix(word: string, why: string, m: nat)
    requires '\n' !in word && |word| <= m <= |word| + 1 + |why|
    ensures Split((word + "\n" + why)[..m], "\n")[0] == word
  {
    var x := (word + "\n" + why)[..m];
    if m == |word| {
      assert x == word;
      FindAbsent(x, "\n", 0);
      SplitWithout(x, "\n");
    } else {
      assert x[..|word|] == word;
      assert x[|word|] == '\n';
      FirstLineAt(x, |word|);
    }
  }

  /** A reply that echoes the cue, then a space, a word on its own line and
      any explanation without a further cue, is cleaned to that word. */
  lemma CueThenWord(word: string, why: string)
    requires |word| > 0 && !IsSpace(word[0]) && !IsSpace(word[|word| - 1])
    requires '\n' !in word
    requires !Contains(" " + word + "\n" + why, Cue)
    ensures Clean(Cue + " " + word + "\n" + why) == word
  {
    var p := " " + word + "\n" + why;
    WordReplyShape(word, why);
    EchoedCue(p, |word|);
    var seg := Strip(LastPiece(Strip(Cue + p), Cue));
    WordLinePrefix(word, why, |seg|);
    var line := (word + "\n" + why)[..|seg|];
    assert seg == line;
    FirstLineOfPrefix(word, why, |seg|);
    assert Clean(Cue + p) == Split(line, "\n")[0];
  }

  /** The lengths and end characters of the reply that `CueThenWord` cleans. */
  lemma WordReplyShape(word: string, why: string)
    requires |word| > 0
    ensures var p := " " + word + "\n" + why;
      && Cue + " " + word + "\n" + why == Cue + p
      && |p| == |word| + 2 + |why|
      && p[0] == ' ' && p[1] == word[0] && p[|word|] == word[|word| - 1]
  {
  }

  /** Past the leading space, the text after the cue is the word line and what follows. */
  lemma WordLinePrefix(word: string, why: string, m: nat)
    requires m < |word| + 2 + |why|
    ensures (" " + word + "\n" + why)[1..m + 1] == (word + "\n" + why)[..m]
  {
    var p := " " + word + "\n" + why;
    var q := word + "\n" + why;
    assert p == " " + q;
    assert p[1..] == q;
  }

  /** The example reply "Category: Academics", a line break and an
      explanation, is labelled Academics with the default categories. */
  lemma AcademicsReply()
    ensures Label("Category:" + " " + "Academics" + "\n" + "Because the feedback concerns teaching.",
                  ["Academics", "Facilities", "Administration", "Other"]) == "Academics"
  {
    var cats := ["Academics", "Facilities", "Administration", "Other"];
    FindAbsent(" " + "Academics" + "\n" + "Because the feedback concerns teaching.", Cue, 0);
    CueThenWord("Academics", "Because the feedback concerns teaching.");
    MatchesItself("Academics");
    assert IsFirstMatch(cats, "Academics", 0);
  }

  /** Every category matches its own name. */
  lemma MatchesItself(cat: string)
    ensures Matches(cat, cat)
  {
    var low := Lower(cat);
    assert low[0..|low|] == low;
    FindFirst(low, low, 0);
  }

  /** Extraction is not idempotent: cleaning the fallback label again can
      change it, because the text before the line break is not re-stripped. */
  lemma CleanNotIdempotent()
    ensures Clean("foo  \nbar") == "foo  "
    ensures Clean(Clean("foo  \nbar")) == "foo"
  {
    CleanFooBar();
    CleanFoo();
  }

  /** The first half of `CleanNotIdempotent`. */
  lemma CleanFooBar()
    ensures Clean("foo  \nbar") == "foo  "
  {
    FooBarSegment();
    FooBarLine();
  }

  /** `"foo  \nbar"` has no cue, so the segment is the whole reply. */
  lemma FooBarSegment()
    ensures Strip(LastPiece(Strip("foo  \nbar"), Cue)) == "foo  \nbar"
  {
    var reply := "foo  \nbar";
    StripUnchanged(reply);
    FindAbsent(reply, Cue, 0);
    SplitWithout(reply, Cue);
  }

  /** The first line of `"foo  \nbar"` keeps its trailing spaces. */
  lemma FooBarLine()
    ensures Split("foo  \nbar", "\n")[0] == "foo  "
  {
    FirstLineAt("foo  \nbar", 5);
  }

  /** The second half of `CleanNotIdempotent`. */
  lemma CleanFoo()
    ensures Clean("foo  ") == "foo"
  {
    StripFoo();
    FindAbsent("foo", Cue, 0);
    CleanPlain("foo  ", "foo");
  }

  /** A reply whose stripped text has no cue and no line break is cleaned
      to that text. */
  lemma CleanPlain(reply: string, t: string)
    requires Strip(reply) == t && !Contains(t, Cue) && '\n' !in t
    ensures Clean(reply) == t
  {
    SplitWithout(t, Cue);
    StripIdempotent(reply);
    FindAbsent(t, "\n", 0);
    SplitWithout(t, "\n");
  }

  /** Stripping `"foo  "` drops the two trailing spaces. */
  lemma StripFoo()
    ensures Strip("foo  ") == "foo"
  {
    var again := "foo  ";
    assert LeadingSpaces(again) == 0;
    assert again[0..] == again;
    assert TrailingSpaces(again) == 2;
  }
}
