/** The Python string built-ins the pipeline leans on: whitespace, `strip()`,
    `sep.join(...)`, prefix slicing `s[:k]`, and the `re.sub(r'\s+', ' ', s)`
    normalisation shared by the ingestion cleaners. */
module Text {

  function Min(a: int, b: int): int {
    if a <= b then a else b
  }

  /** Python's whitespace: the characters `str.isspace()` accepts, which are
      also the ones the `\s` class of a `str` regex and `str.strip()` use. */
  predicate IsSpace(c: char) {
    || c == ' '
    || ('\t' <= c <= '\r')
    || ('\U{1C}' <= c <= '\U{1F}')
    || c == '\U{85}' || c == '\U{A0}' || c == '\U{1680}'
    || ('\U{2000}' <= c <= '\U{200A}')
    || c == '\U{2028}' || c == '\U{2029}' || c == '\U{202F}'
    || c == '\U{205F}' || c == '\U{3000}'
  }

  predicate AllSpace(s: string) {
    forall i :: 0 <= i < |s| ==> IsSpace(s[i])
  }

  /** The end of the whitespace run of `s` that starts at `i`. */
  function SpaceRunEnd(s: string, i: nat): (n: nat)
    requires i <= |s|
    ensures i <= n <= |s|
    ensures forall k :: i <= k < n ==> IsSpace(s[k])
    ensures n < |s| ==> !IsSpace(s[n])
    decreases |s| - i
  {
    if i < |s| && IsSpace(s[i]) then SpaceRunEnd(s, i + 1) else i
  }

  /** The start of the whitespace run of `s` that ends at `j`, looking no
      further left than `lo`. */
  function SpaceRunStart(s: string, lo: nat, j: nat): (n: nat)
    requires lo <= j <= |s|
    ensures lo <= n <= j
    ensures forall k :: n <= k < j ==> IsSpace(s[k])
    ensures n > lo ==> !IsSpace(s[n - 1])
    decreases j - lo
  {
    if j > lo && IsSpace(s[j - 1]) then SpaceRunStart(s, lo, j - 1) else j
  }

  /** Where the stripped text starts inside `s`: the length of its leading whitespace. */
  function StripOffset(s: string): (o: nat)
    ensures o <= |s|
  {
    SpaceRunEnd(s, 0)
  }

  /** Python's `str.strip()` with no argument: the one slice of `s` that
      neither starts nor ends with whitespace and leaves only whitespace
      outside it. */
  function Strip(s: string): (r: string)
    ensures r == [] || (!IsSpace(r[0]) && !IsSpace(r[|r| - 1]))
    ensures StripOffset(s) + |r| <= |s| && r == s[StripOffset(s)..StripOffset(s) + |r|]
    ensures forall k :: 0 <= k < StripOffset(s) ==> IsSpace(s[k])
    ensures forall k :: StripOffset(s) + |r| <= k < |s| ==> IsSpace(s[k])
  {
    var o := StripOffset(s);
    s[o..SpaceRunStart(s, o, |s|)]
  }

  /** Neither end of `t` is whitespace: what `strip()` leaves. */
  predicate Trimmed(t: string) {
    t == [] || (!IsSpace(t[0]) && !IsSpace(t[|t| - 1]))
  }

  /** `strip()` gives the empty string exactly for all-whitespace input. */
  lemma {:induction false} StripEmptyIffAllSpace(s: string)
    ensures Strip(s) == [] <==> AllSpace(s)
  {
    var r := Strip(s);
    var o := StripOffset(s);
    if r != [] {
      assert s[o] == r[0];
    }
  }

  /** A string ending in whitespace loses at least that character to `strip()`. */
  lemma {:induction false} StripDropsTrailingSpace(s: string)
    requires s != [] && IsSpace(s[|s| - 1])
    ensures |Strip(s)| < |s|
  {
    var r := Strip(s);
  }

  /** The non-whitespace characters of `s`, in order. */
  function NonSpace(s: string): (r: string)
    ensures |r| <= |s|
    ensures forall i :: 0 <= i < |r| ==> !IsSpace(r[i])
  {
    if s == [] then [] else (if IsSpace(s[0]) then [] else [s[0]]) + NonSpace(s[1..])
  }

  lemma {:induction false} NonSpaceCons(c: char, s: string)
    ensures NonSpace([c] + s) == (if IsSpace(c) then [] else [c]) + NonSpace(s)
  {
    assert ([c] + s)[0] == c;
    assert ([c] + s)[1..] == s;
  }

  lemma {:induction false} NonSpaceAppend(a: string, b: string)
    ensures NonSpace(a + b) == NonSpace(a) + NonSpace(b)
    decreases |a|
  {
    if a == [] {
      assert a + b == b;
    } else {
      assert (a + b)[1..] == a[1..] + b;
      NonSpaceAppend(a[1..], b);
    }
  }

  /** Whitespace has no visible characters. */
  lemma {:induction false} NonSpaceAllSpace(s: string)
    requires AllSpace(s)
    ensures NonSpace(s) == []
    decreases |s|
  {
    if s != [] {
      NonSpaceAllSpace(s[1..]);
    }
  }

  /** `strip()` removes whitespace only. */
  lemma {:induction false} StripVisible(s: string)
    ensures NonSpace(Strip(s)) == NonSpace(s)
  {
    var r := Strip(s);
    var o := StripOffset(s);
    var a, b := s[..o], s[o + |r|..];
    assert s == a + r + b;
    assert forall k :: 0 <= k < |a| ==> a[k] == s[k];
    assert forall k :: 0 <= k < |b| ==> b[k] == s[o + |r| + k];
    NonSpaceFrame(a, r, b);
  }

  /** Whitespace around a text adds no visible characters. */
  lemma {:induction false} NonSpaceFrame(a: string, r: string, b: string)
    requires AllSpace(a) && AllSpace(b)
    ensures NonSpace(a + r + b) == NonSpace(r)
  {
    NonSpaceAppend(a + r, b);
    NonSpaceAppend(a, r);
    NonSpaceAllSpace(a);
    NonSpaceAllSpace(b);
  }

  /** `re.sub(r'\s+', ' ', s)`, read left to right: every maximal run of
      whitespace becomes one `' '`.  `inRun` holds when the character just
      before `s` was whitespace whose run has already been written out. */
  function CollapseFrom(s: string, inRun: bool): string
    decreases |s|
  {
    if s == [] then []
    else if IsSpace(s[0]) then (if inRun then [] else [' ']) + CollapseFrom(s[1..], true)
    else [s[0]] + CollapseFrom(s[1..], false)
  }

  /** The collapse leaves `' '` as the only whitespace, never two whitespace
      characters in a row, and a leading space only for a leading run not
      already written out; it keeps every visible character. */
  lemma {:induction false} CollapseShape(s: string, inRun: bool)
    ensures var r := CollapseFrom(s, inRun);
      && (forall i :: 0 <= i < |r| && IsSpace(r[i]) ==> r[i] == ' ')
      && (forall i :: 0 <= i < |r| - 1 ==> !(IsSpace(r[i]) && IsSpace(r[i + 1])))
      && ((r != [] && IsSpace(r[0])) <==> (!inRun && s != [] && IsSpace(s[0])))
      && NonSpace(r) == NonSpace(s)
    decreases |s|
  {
    if s != [] {
      var head: string := if IsSpace(s[0]) then (if inRun then [] else [' ']) else [s[0]];
      var rest := CollapseFrom(s[1..], IsSpace(s[0]));
      CollapseShape(s[1..], IsSpace(s[0]));
      assert CollapseFrom(s, inRun) == head + rest;
      NonSpaceAppend(head, rest);
      NonSpaceCons(s[0], s[1..]);
      assert [s[0]] + s[1..] == s;
    }
  }

  /** `re.sub(r'\s+', ' ', s)`. */
  function CollapseSpaces(s: string): (r: string)
    ensures forall i :: 0 <= i < |r| && IsSpace(r[i]) ==> r[i] == ' '
    ensures forall i :: 0 <= i < |r| - 1 ==> !(IsSpace(r[i]) && IsSpace(r[i + 1]))
    ensures NonSpace(r) == NonSpace(s)
  {
    CollapseShape(s, false);
    CollapseFrom(s, false)
  }

  /** A word in the sense of `str.split()`: non-empty, with no whitespace. */
  predicate IsWord(w: string) {
    w != [] && forall i :: 0 <= i < |w| ==> !IsSpace(w[i])
  }

  /** The end of the whitespace-free run of `s` that starts at `i`. */
  function WordEnd(s: string, i: nat): (n: nat)
    requires i <= |s|
    ensures i <= n <= |s|
    ensures forall k :: i <= k < n ==> !IsSpace(s[k])
    ensures n < |s| ==> IsSpace(s[n])
    decreases |s| - i
  {
    if i < |s| && !IsSpace(s[i]) then WordEnd(s, i + 1) else i
  }

  /** Python's `str.split()` with no argument: the maximal whitespace-free
      runs of `s`, in order. */
  function Words(s: string): (ws: seq<string>)
    ensures forall k :: 0 <= k < |ws| ==> IsWord(ws[k])
    decreases |s|
  {
    if s == [] then []
    else if IsSpace(s[0]) then Words(s[1..])
    else
      var e := WordEnd(s, 0);
      [s[..e]] + Words(s[e..])
  }

  /** `split()` finds no word exactly in all-whitespace text. */
  lemma {:induction false} WordsEmptyIffAllSpace(s: string)
    ensures Words(s) == [] <==> AllSpace(s)
    decreases |s|
  {
    if s != [] && IsSpace(s[0]) {
      WordsEmptyIffAllSpace(s[1..]);
      if AllSpace(s[1..]) {
        assert forall k :: 1 <= k < |s| ==> s[k] == s[1..][k - 1];
      }
    }
  }

  /** Leading and trailing whitespace of the collapsed text: one `' '` for a
      leading run (unless it continues a run already written out), and one
      for a trailing run that follows a word. */
  function LeadSpace(s: string, inRun: bool): string {
    if !inRun && s != [] && IsSpace(s[0]) then " " else ""
  }

  function TrailSpace(s: string): string {
    if Words(s) != [] && s != [] && IsSpace(s[|s| - 1]) then " " else ""
  }

  /** The whitespace collapse is `' '.join(s.split())`, with at most one
      `' '` kept at either end: every run of whitespace between two words
      becomes exactly one space. */
  lemma {:induction false} CollapseWords(s: string, inRun: bool)
    ensures CollapseFrom(s, inRun) == LeadSpace(s, inRun) + Join(Words(s), " ") + TrailSpace(s)
    decreases |s|, 1
  {
    if s == [] {
    } else if IsSpace(s[0]) {
      CollapseWords(s[1..], true);
      CollapseWordsSpace(s, inRun);
    } else {
      var e := WordEnd(s, 0);
      CollapseWords(s[e..], false);
      CollapseWordsWord(s, inRun);
    }
  }

  /** The step of `CollapseWords` over a leading whitespace character. */
  lemma {:induction false} CollapseWordsSpace(s: string, inRun: bool)
    requires s != [] && IsSpace(s[0])
    requires CollapseFrom(s[1..], true) == Join(Words(s[1..]), " ") + TrailSpace(s[1..])
    ensures CollapseFrom(s, inRun) == LeadSpace(s, inRun) + Join(Words(s), " ") + TrailSpace(s)
  {
    assert Words(s) == Words(s[1..]);
    assert TrailSpace(s) == TrailSpace(s[1..]) by {
      if s[1..] != [] {
        assert s[1..][|s[1..]| - 1] == s[|s| - 1];
      }
    }
    assert CollapseFrom(s, inRun) == LeadSpace(s, inRun) + CollapseFrom(s[1..], true);
    var L, J, T := LeadSpace(s, inRun), Join(Words(s), " "), TrailSpace(s);
    assert L + (J + T) == L + J + T;
  }

  /** The step of `CollapseWords` over a leading word. */
  lemma {:induction false} CollapseWordsWord(s: string, inRun: bool)
    requires s != [] && !IsSpace(s[0])
    requires CollapseFrom(s[WordEnd(s, 0)..], false)
               == LeadSpace(s[WordEnd(s, 0)..], false) + Join(Words(s[WordEnd(s, 0)..]), " ") + TrailSpace(s[WordEnd(s, 0)..])
    ensures CollapseFrom(s, inRun) == LeadSpace(s, inRun) + Join(Words(s), " ") + TrailSpace(s)
  {
    var e := WordEnd(s, 0);
    var w, t := s[..e], s[e..];
    CollapseWord(s, inRun, e);
    WordFront(s, inRun);
    WordThenRest(w, Words(t), CollapseFrom(t, false), LeadSpace(t, false), TrailSpace(t), TrailSpace(s));
    WordGlue(CollapseFrom(s, inRun), w, CollapseFrom(t, false), Words(s), Words(t), LeadSpace(s, inRun), TrailSpace(s));
  }

  lemma {:induction false} WordGlue(r: string, w: string, c: string, words: seq<string>, ws: seq<string>, lead: string, trail: string)
    requires r == w + c && words == [w] + ws && lead == []
    requires w + c == Join([w] + ws, " ") + trail
    ensures r == lead + Join(words, " ") + trail
  {
    assert lead + Join(words, " ") == Join(words, " ");
  }

  /** A text that starts with a word: `split()` yields that word first, no
      space leads, and the trailing space is the rest's. */
  lemma {:induction false} WordFront(s: string, inRun: bool)
    requires s != [] && !IsSpace(s[0])
    ensures Words(s) == [s[..WordEnd(s, 0)]] + Words(s[WordEnd(s, 0)..])
    ensures LeadSpace(s, inRun) == []
    ensures Words(s[WordEnd(s, 0)..]) == [] ==> TrailSpace(s) == LeadSpace(s[WordEnd(s, 0)..], false)
    ensures Words(s[WordEnd(s, 0)..]) != [] ==> TrailSpace(s) == TrailSpace(s[WordEnd(s, 0)..])
    ensures Words(s[WordEnd(s, 0)..]) != [] ==> LeadSpace(s[WordEnd(s, 0)..], false) == " "
  {
    TrailAfterWord(s);
  }

  /** A word followed by the collapse of the rest: the word joins the rest's
      words, and the rest's leading space becomes their separator. */
  lemma {:induction false} WordThenRest(w: string, ws: seq<string>, c: string, lead: string, trail: string, trailAll: string)
    requires c == lead + Join(ws, " ") + trail
    requires ws == [] ==> trail == [] && trailAll == lead
    requires ws != [] ==> lead == " " && trailAll == trail
    ensures w + c == Join([w] + ws, " ") + trailAll
  {
    if ws == [] {
      assert Join([w] + ws, " ") == w;
    } else {
      JoinCons(w, ws, " ");
    }
  }

  /** What the collapse writes after a leading word: the trailing space of
      the rest, or, when no word follows, the one space of its run. */
  lemma {:induction false} TrailAfterWord(s: string)
    requires s != [] && !IsSpace(s[0])
    ensures TrailSpace(s) == if Words(s[WordEnd(s, 0)..]) == [] then LeadSpace(s[WordEnd(s, 0)..], false) else TrailSpace(s[WordEnd(s, 0)..])
    ensures Words(s[WordEnd(s, 0)..]) != [] ==> LeadSpace(s[WordEnd(s, 0)..], false) == " "
  {
    var e := WordEnd(s, 0);
    var t := s[e..];
    assert Words(s) != [];
    if t == [] {
      assert s[|s| - 1] == s[..e][e - 1];
    } else {
      assert s[|s| - 1] == t[|t| - 1];
      if Words(t) == [] {
        WordsEmptyIffAllSpace(t);
      }
    }
  }

  /** A word at the front passes through the collapse unchanged, and leaves
      the collapse outside any run. */
  lemma {:induction false} CollapseWord(s: string, inRun: bool, e: nat)
    requires 0 < e <= |s|
    requires forall k :: 0 <= k < e ==> !IsSpace(s[k])
    ensures CollapseFrom(s, inRun) == s[..e] + CollapseFrom(s[e..], false)
    decreases e
  {
    var rest := CollapseFrom(s[1..], false);
    assert CollapseFrom(s, inRun) == [s[0]] + rest;
    if e > 1 {
      CollapseWord(s[1..], false, e - 1);
      assert s[1..][..e - 1] == s[1..e];
      assert s[1..][e - 1..] == s[e..];
      assert rest == s[1..e] + CollapseFrom(s[e..], false);
      assert [s[0]] + s[1..e] == s[..e];
    } else {
      assert s[..1] == [s[0]];
      assert s[1..] == s[e..];
    }
  }

  /** Words joined by single spaces neither start nor end with whitespace. */
  lemma {:induction false} JoinWordsTrimmed(ws: seq<string>)
    requires forall k :: 0 <= k < |ws| ==> IsWord(ws[k])
    ensures Trimmed(Join(ws, " "))
    ensures ws != [] ==> Join(ws, " ") != []
    decreases |ws|
  {
    if |ws| > 1 {
      JoinWordsTrimmed(ws[1..]);
      var j := Join(ws, " ");
      var jr := Join(ws[1..], " ");
      assert j == ws[0] + " " + jr;
      assert j[0] == ws[0][0];
      assert j[|j| - 1] == jr[|jr| - 1];
    }
  }

  /** `strip()` of a trimmed text framed by whitespace gives the text back. */
  lemma {:induction false} StripFrame(a: string, m: string, b: string)
    requires AllSpace(a) && AllSpace(b) && Trimmed(m)
    ensures Strip(a + m + b) == m
  {
    var t := a + m + b;
    if m == [] {
      assert t == a + b;
      assert AllSpace(t);
      StripEmptyIffAllSpace(t);
    } else {
      StripFrameBounds(a, m, b);
      assert t[|a|..|a| + |m|] == m;
    }
  }

  /** Where `strip()` cuts a whitespace-framed non-empty trimmed text. */
  lemma {:induction false} StripFrameBounds(a: string, m: string, b: string)
    requires AllSpace(a) && AllSpace(b) && m != [] && Trimmed(m)
    ensures StripOffset(a + m + b) == |a| && |Strip(a + m + b)| == |m|
  {
    var t := a + m + b;
    var r := Strip(t);
    StripOffsetFrame(a, m, b);
    assert t[|a| + |m| - 1] == m[|m| - 1];
    assert |r| >= |m|;
    assert forall k :: |a| + |m| <= k < |t| ==> t[k] == b[k - |a| - |m|];
    assert r[|r| - 1] == t[|a| + |r| - 1];
  }

  lemma {:induction false} StripOffsetFrame(a: string, m: string, b: string)
    requires AllSpace(a) && m != [] && !IsSpace(m[0])
    ensures StripOffset(a + m + b) == |a|
  {
    var t := a + m + b;
    assert t[|a|] == m[0];
    assert forall k :: 0 <= k < |a| ==> t[k] == a[k];
  }

  /** `re.sub(r'\s+', ' ', s).strip()` is `' '.join(s.split())`. */
  lemma {:induction false} StripCollapseWords(s: string)
    ensures Strip(CollapseSpaces(s)) == Join(Words(s), " ")
  {
    CollapseWords(s, false);
    JoinWordsTrimmed(Words(s));
    StripFrame(LeadSpace(s, false), Join(Words(s), " "), TrailSpace(s));
  }

  /** The collapse writes no character that is neither `' '` nor from `s`. */
  lemma {:induction false} CollapseKeepsChars(s: string, inRun: bool)
    ensures forall c :: c in CollapseFrom(s, inRun) ==> c == ' ' || c in s
    decreases |s|
  {
    if s != [] {
      CollapseKeepsChars(s[1..], IsSpace(s[0]));
      assert forall c :: c in s[1..] ==> c in s;
    }
  }

  /** Whether the collapse, started in state `inRun`, ends `s` inside a
      whitespace run it has already written out. */
  function CollapseState(s: string, inRun: bool): bool
    decreases |s|
  {
    if s == [] then inRun else CollapseState(s[1..], IsSpace(s[0]))
  }

  /** The collapse reads left to right: collapsing `u + v` collapses `u`,
      then `v` from the state `u` left it in. */
  lemma {:induction false} CollapseAppend(u: string, v: string, inRun: bool)
    ensures CollapseFrom(u + v, inRun) == CollapseFrom(u, inRun) + CollapseFrom(v, CollapseState(u, inRun))
    decreases |u|
  {
    if u == [] {
      assert u + v == v;
    } else {
      assert (u + v)[0] == u[0];
      assert (u + v)[1..] == u[1..] + v;
      CollapseAppend(u[1..], v, IsSpace(u[0]));
    }
  }

  /** Ending inside a run means the collapse has just written its space,
      unless it wrote nothing at all from inside a run. */
  lemma {:induction false} CollapseEndsInRun(s: string, inRun: bool)
    requires CollapseState(s, inRun)
    ensures var r := CollapseFrom(s, inRun);
      (r == [] && inRun) || (r != [] && r[|r| - 1] == ' ')
    decreases |s|
  {
    if s != [] {
      var n := IsSpace(s[0]);
      var head: string := if n then (if inRun then [] else [' ']) else [s[0]];
      var rest := CollapseFrom(s[1..], n);
      CollapseEndsInRun(s[1..], n);
      assert CollapseFrom(s, inRun) == head + rest;
      if rest != [] {
        assert (head + rest)[|head + rest| - 1] == rest[|rest| - 1];
      }
    }
  }

  /** `r` has a whitespace character with the visible characters `x` before
      it and `y` after it. */
  ghost predicate SplitsAt(r: string, x: string, y: string) {
    exists i :: 0 <= i < |r| && IsSpace(r[i]) && NonSpace(r[..i]) == x && NonSpace(r[i + 1..]) == y
  }

  /** The pieces around the whitespace character of a split. */
  lemma {:induction false} SplitPieces(r: string, x: string, y: string) returns (p: string, c: char, q: string)
    requires SplitsAt(r, x, y)
    ensures r == p + [c] + q && IsSpace(c) && NonSpace(p) == x && NonSpace(q) == y
  {
    var i :| 0 <= i < |r| && IsSpace(r[i]) && NonSpace(r[..i]) == x && NonSpace(r[i + 1..]) == y;
    p, c, q := r[..i], r[i], r[i + 1..];
    SliceAround(r, i);
  }

  lemma {:induction false} SliceAround<T>(r: seq<T>, i: nat)
    requires i < |r|
    ensures r == r[..i] + [r[i]] + r[i + 1..]
  {
    assert r == r[..i] + r[i..];
  }

  lemma {:induction false} SplitsAtMiddle(p: string, c: char, q: string)
    requires IsSpace(c)
    ensures SplitsAt(p + [c] + q, NonSpace(p), NonSpace(q))
  {
    var r := p + [c] + q;
    assert r[|p|] == c;
    assert r[..|p|] == p;
    assert r[|p| + 1..] == q;
  }

  lemma {:induction false} SplitsAtEnd(p: string, q: string)
    requires p != [] && IsSpace(p[|p| - 1])
    ensures SplitsAt(p + q, NonSpace(p), NonSpace(q))
  {
    var h := p[..|p| - 1];
    assert p == h + [p[|p| - 1]];
    NonSpaceAppend(h, [p[|p| - 1]]);
    assert NonSpace([p[|p| - 1]]) == [];
    SplitsAtMiddle(h, p[|p| - 1], q);
    assert h + [p[|p| - 1]] + q == p + q;
  }

  /** Where a left-to-right pass meets whitespace between two parts, it
      either writes a whitespace character `c` or, having just written a
      space, nothing: both leave the parts split. */
  lemma {:induction false} SplitsAtSeam(p: string, c: char, q: string, skipped: bool)
    requires IsSpace(c)
    requires skipped ==> p != [] && IsSpace(p[|p| - 1])
    ensures SplitsAt(p + ((if skipped then [] else [c]) + q), NonSpace(p), NonSpace(q))
  {
    if skipped {
      SplitsAtEnd(p, q);
      assert p + ([] + q) == p + q;
    } else {
      SplitsAtMiddle(p, c, q);
      assert p + [c] + q == p + ([c] + q);
    }
  }

  /** Whitespace between two visible parts survives the collapse. */
  lemma {:induction false} CollapseSplits(a: string, w: char, b: string)
    requires IsSpace(w)
    ensures SplitsAt(CollapseSpaces(a + [w] + b), NonSpace(a), NonSpace(b))
  {
    var st := CollapseState(a, false);
    var ca := CollapseFrom(a, false);
    var cb := CollapseFrom(b, true);
    assert CollapseFrom(a + [w] + b, false) == ca + ((if st then [] else [' ']) + cb) by {
      CollapseAppend(a, [w] + b, false);
      assert a + [w] + b == a + ([w] + b);
      assert ([w] + b)[0] == w;
      assert ([w] + b)[1..] == b;
    }
    assert NonSpace(ca) == NonSpace(a) by {
      CollapseShape(a, false);
    }
    assert NonSpace(cb) == NonSpace(b) by {
      CollapseShape(b, true);
    }
    if st {
      CollapseEndsInRun(a, false);
    }
    SplitsAtSeam(ca, ' ', cb, st);
  }

  /** A split with visible characters on both sides survives `strip()`. */
  lemma {:induction false} StripKeepsSplit(r: string, x: string, y: string)
    requires SplitsAt(r, x, y) && x != [] && y != []
    ensures SplitsAt(Strip(r), x, y)
  {
    var i :| 0 <= i < |r| && IsSpace(r[i]) && NonSpace(r[..i]) == x && NonSpace(r[i + 1..]) == y;
    StripSplitBounds(r, i);
    StripSplitAt(r, i);
    var j := i - StripOffset(r);
    assert 0 <= j < |Strip(r)| && IsSpace(Strip(r)[j]);
  }

  /** Inside the stripped text, position `i` of `r` keeps the visible
      characters on either side of it. */
  lemma {:induction false} StripSplitAt(r: string, i: nat)
    requires StripOffset(r) <= i && i + 1 < StripOffset(r) + |Strip(r)| <= |r|
    ensures var j := i - StripOffset(r);
      && 0 <= j < |Strip(r)| && Strip(r)[j] == r[i]
      && NonSpace(Strip(r)[..j]) == NonSpace(r[..i])
      && NonSpace(Strip(r)[j + 1..]) == NonSpace(r[i + 1..])
  {
    StripSplitBefore(r, i);
    StripSplitAfter(r, i);
  }

  lemma {:induction false} StripSplitBefore(r: string, i: nat)
    requires StripOffset(r) <= i < StripOffset(r) + |Strip(r)| <= |r|
    ensures NonSpace(Strip(r)[..i - StripOffset(r)]) == NonSpace(r[..i])
  {
    var o := StripOffset(r);
    var s := Strip(r);
    assert r[..i] == r[..o] + s[..i - o];
    NonSpaceAppend(r[..o], s[..i - o]);
    NonSpacePrefixSpace(r, o);
  }

  lemma {:induction false} StripSplitAfter(r: string, i: nat)
    requires StripOffset(r) <= i && i + 1 <= StripOffset(r) + |Strip(r)| <= |r|
    ensures NonSpace(Strip(r)[i + 1 - StripOffset(r)..]) == NonSpace(r[i + 1..])
  {
    var o := StripOffset(r);
    var s := Strip(r);
    var e := o + |s|;
    assert r[i + 1..] == s[i + 1 - o..] + r[e..];
    NonSpaceAppend(s[i + 1 - o..], r[e..]);
    NonSpaceSuffixSpace(r, e);
  }

  /** `strip()` cuts only whitespace, so it cuts neither into a visible part
      before position `i` nor into one after it. */
  lemma {:induction false} StripSplitBounds(r: string, i: nat)
    requires i < |r| && NonSpace(r[..i]) != [] && NonSpace(r[i + 1..]) != []
    ensures StripOffset(r) <= i && i + 1 < StripOffset(r) + |Strip(r)|
  {
    var o := StripOffset(r);
    var e := o + |Strip(r)|;
    if o > i {
      NonSpacePrefixSpace(r, i);
    }
    if e <= i + 1 {
      NonSpaceSuffixSpace(r, i + 1);
    }
  }

  lemma {:induction false} NonSpacePrefixSpace(r: string, n: nat)
    requires n <= |r| && forall k :: 0 <= k < n ==> IsSpace(r[k])
    ensures NonSpace(r[..n]) == []
  {
    assert forall k :: 0 <= k < n ==> r[..n][k] == r[k];
    NonSpaceAllSpace(r[..n]);
  }

  lemma {:induction false} NonSpaceSuffixSpace(r: string, n: nat)
    requires n <= |r| && forall k :: n <= k < |r| ==> IsSpace(r[k])
    ensures NonSpace(r[n..]) == []
  {
    assert forall k :: n <= k < |r| ==> r[n..][k - n] == r[k];
    NonSpaceAllSpace(r[n..]);
  }

  /** Python's `sep.join(parts)`: as long as its parts plus one separator
      between each adjacent pair. */
  function Join(parts: seq<string>, sep: string): (r: string)
    ensures |r| == TotalLength(parts) + (if parts == [] then 0 else (|parts| - 1) * |sep|)
    decreases |parts|
  {
    if parts == [] then []
    else if |parts| == 1 then parts[0]
    else parts[0] + sep + Join(parts[1..], sep)
  }

  function TotalLength(parts: seq<string>): nat
  {
    if parts == [] then 0 else |parts[0]| + TotalLength(parts[1..])
  }

  lemma {:induction false} JoinCons(p: string, ps: seq<string>, sep: string)
    requires ps != []
    ensures Join([p] + ps, sep) == p + sep + Join(ps, sep)
  {
    assert ([p] + ps)[1..] == ps;
  }

  /** Where part `k` starts in `sep.join(parts)`: after the parts before it
      and one separator for each of them. */
  function PartOffset(parts: seq<string>, sep: string, k: nat): nat
    requires k <= |parts|
  {
    if k == 0 then 0 else PartOffset(parts, sep, k - 1) + |parts[k - 1]| + |sep|
  }

  /** Every part sits at its offset in the join. */
  lemma {:induction false} JoinPlaces(parts: seq<string>, sep: string)
    ensures forall k :: 0 <= k < |parts| ==>
              && PartOffset(parts, sep, k) + |parts[k]| <= |Join(parts, sep)|
              && Join(parts, sep)[PartOffset(parts, sep, k)..PartOffset(parts, sep, k) + |parts[k]|] == parts[k]
  {
    forall k | 0 <= k < |parts| {
      JoinPartAt(parts, sep, k);
    }
  }

  /** A separator comes right before every part but the first: with
      `JoinPlaces` and the length, this determines the join. */
  lemma {:induction false} JoinSeps(parts: seq<string>, sep: string)
    ensures forall k :: 0 < k < |parts| ==>
              && |sep| <= PartOffset(parts, sep, k) <= |Join(parts, sep)|
              && Join(parts, sep)[PartOffset(parts, sep, k) - |sep|..PartOffset(parts, sep, k)] == sep
  {
    forall k | 0 < k < |parts| {
      JoinSepAt(parts, sep, k);
    }
  }

  lemma {:induction false} JoinPartAt(parts: seq<string>, sep: string, k: nat)
    requires k < |parts|
    ensures PartOffset(parts, sep, k) + |parts[k]| <= |Join(parts, sep)|
    ensures Join(parts, sep)[PartOffset(parts, sep, k)..PartOffset(parts, sep, k) + |parts[k]|] == parts[k]
    decreases k
  {
    if k == 0 {
      assert parts[..0] == [];
      if |parts| > 1 {
        assert Join(parts, sep) == parts[0] + (sep + Join(parts[1..], sep));
      }
    } else {
      var a := parts[0] + sep;
      JoinPartAt(parts[1..], sep, k - 1);
      OffsetStep(parts, sep, k);
      var o := PartOffset(parts[1..], sep, k - 1);
      assert Join(parts, sep) == a + Join(parts[1..], sep);
      SliceShift(a, Join(parts[1..], sep), o, o + |parts[k]|);
    }
  }

  lemma {:induction false} JoinSepAt(parts: seq<string>, sep: string, k: nat)
    requires 0 < k < |parts|
    ensures |sep| <= PartOffset(parts, sep, k) <= |Join(parts, sep)|
    ensures Join(parts, sep)[PartOffset(parts, sep, k) - |sep|..PartOffset(parts, sep, k)] == sep
    decreases k
  {
    var a := parts[0] + sep;
    var jr := Join(parts[1..], sep);
    assert Join(parts, sep) == a + jr;
    OffsetStep(parts, sep, k);
    if k == 1 {
      assert (a + jr)[|parts[0]|..|a|] == sep;
    } else {
      JoinSepAt(parts[1..], sep, k - 1);
      var o := PartOffset(parts[1..], sep, k - 1);
      SliceShift(a, jr, o - |sep|, o);
    }
  }

  lemma {:induction false} OffsetStep(parts: seq<string>, sep: string, k: nat)
    requires 0 < k < |parts|
    ensures PartOffset(parts, sep, k) == |parts[0]| + |sep| + PartOffset(parts[1..], sep, k - 1)
    decreases k
  {
    if k > 1 {
      OffsetStep(parts, sep, k - 1);
    }
  }

  lemma {:induction false} SliceShift(a: string, b: string, x: nat, y: nat)
    requires x <= y <= |b|
    ensures (a + b)[|a| + x..|a| + y] == b[x..y]
  {
    assert forall i :: 0 <= i < y - x ==> (a + b)[|a| + x..|a| + y][i] == b[x..y][i];
  }

  /** Python's prefix slice `s[:k]`, including its reading of a negative
      `k` as "all but the last `-k`". */
  function SliceTo<T>(s: seq<T>, k: int): (r: seq<T>)
    ensures |r| <= |s| && r == s[..|r|]
    ensures k >= 0 ==> |r| == Min(k, |s|)
    ensures k < 0 ==> |r| == (if |s| + k >= 0 then |s| + k else 0)
  {
    if k >= 0 then (if k <= |s| then s[..k] else s)
    else if |s| + k >= 0 then s[..|s| + k]
    else []
  }

  /** `[f(x) for x in xs]`. */
  function MapSeq<A, B>(xs: seq<A>, f: A -> B): (ys: seq<B>)
    ensures |ys| == |xs|
    ensures forall k :: 0 <= k < |xs| ==> ys[k] == f(xs[k])
    decreases |xs|
  {
    if xs == [] then [] else MapSeq(xs[..|xs| - 1], f) + [f(xs[|xs| - 1])]
  }

  /** Where the pieces of `head + x + mid + y + tail` sit: the layout of an
      f-string template with two slots. */
  lemma {:induction false} FillLayout(head: string, x: string, mid: string, y: string, tail: string)
    ensures var p := head + x + mid + y + tail;
            && |p| == |head| + |x| + |mid| + |y| + |tail|
            && p[..|head|] == head
            && p[|head|..|head| + |x|] == x
            && p[|head| + |x| + |mid|..|p| - |tail|] == y
            && p[|p| - |tail|..] == tail
  {
    var p := head + x + mid + y + tail;
    assert p == head + (x + (mid + (y + tail)));
  }
}
