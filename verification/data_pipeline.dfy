/** Ingestion text shaping of `NewtonDataPipeline`: the regex cleaner applied
    to each stored document, the greedy sentence-aligned chunker, and the
    mapping of chunks and their embeddings onto vector-index points. */
module DataPipeline {
  import opened Text

  // ---------------------------------------------------------------------
  // clean_text
  // ---------------------------------------------------------------------

  /** The `\w` class, over ASCII: letters, digits and underscore. */
  predicate IsWordChar(c: char) {
    ('a' <= c <= 'z') || ('A' <= c <= 'Z') || ('0' <= c <= '9') || c == '_'
  }

  /** The punctuation the cleaner keeps: `. , ; : ! ? ( ) -`. */
  predicate IsKeptSymbol(c: char) {
    c == '.' || c == ',' || c == ';' || c == ':' || c == '!' || c == '?'
    || c == '(' || c == ')' || c == '-'
  }

  /** The characters the cleaner spaces after: `. ! ?`. */
  predicate IsSentenceMark(c: char) {
    c == '.' || c == '!' || c == '?'
  }

  /** Characters of the class `[\w\s.,;:!?()-]`. */
  predicate IsKept(c: char) {
    IsWordChar(c) || IsSpace(c) || IsKeptSymbol(c)
  }

  /** `re.sub(r'[^\w\s.,;:!?()-]', '', s)`: drop every other character. */
  function DropDisallowed(s: string): (r: string)
    ensures forall c :: c in r ==> IsKept(c) && c in s
    decreases |s|
  {
    if s == [] then []
    else if IsKept(s[0]) then [s[0]] + DropDisallowed(s[1..])
    else DropDisallowed(s[1..])
  }

  /** `re.sub(r'([.!?])\s*', r'\1 ', s)` read left to right: each sentence
      mark is written with exactly one space after it, and the whitespace
      that followed it is swallowed.  `afterMark` holds while that
      whitespace is being swallowed. */
  function SpaceAfterMarksFrom(s: string, afterMark: bool): string
    decreases |s|
  {
    if s == [] then []
    else if afterMark && IsSpace(s[0]) then SpaceAfterMarksFrom(s[1..], true)
    else if IsSentenceMark(s[0]) then [s[0], ' '] + SpaceAfterMarksFrom(s[1..], true)
    else [s[0]] + SpaceAfterMarksFrom(s[1..], false)
  }

  /** Mark spacing adds nothing but spaces, swallows whitespace right after
      a mark, and leaves every mark followed by exactly one space. */
  lemma {:induction false} SpaceAfterMarksShape(s: string, afterMark: bool)
    ensures var r := SpaceAfterMarksFrom(s, afterMark);
      && (forall c :: c in r ==> c == ' ' || c in s)
      && (afterMark && r != [] ==> !IsSpace(r[0]))
      && MarksSpaced(r)
    decreases |s|
  {
    if s == [] {
    } else if afterMark && IsSpace(s[0]) {
      SpaceAfterMarksShape(s[1..], true);
      assert forall c :: c in s[1..] ==> c in s;
    } else if IsSentenceMark(s[0]) {
      SpaceAfterMarksShape(s[1..], true);
      assert forall c :: c in s[1..] ==> c in s;
      MarksSpacedAfterMark(s[0], SpaceAfterMarksFrom(s[1..], true));
    } else {
      SpaceAfterMarksShape(s[1..], false);
      assert forall c :: c in s[1..] ==> c in s;
      MarksSpacedAfterOther(s[0], SpaceAfterMarksFrom(s[1..], false));
    }
  }

  /** Every sentence mark is followed by exactly one space and then, unless
      the text ends there, by a non-space character. */
  predicate MarksSpaced(r: string) {
    forall i :: 0 <= i < |r| && IsSentenceMark(r[i]) ==>
      i + 1 < |r| && r[i + 1] == ' ' && (i + 2 < |r| ==> !IsSpace(r[i + 2]))
  }

  lemma {:induction false} MarksSpacedAfterMark(m: char, rest: string)
    requires IsSentenceMark(m) && MarksSpaced(rest)
    requires rest != [] ==> !IsSpace(rest[0])
    ensures MarksSpaced([m, ' '] + rest)
  {
    var r := [m, ' '] + rest;
    forall i | 0 <= i < |r| && IsSentenceMark(r[i])
      ensures i + 1 < |r| && r[i + 1] == ' ' && (i + 2 < |r| ==> !IsSpace(r[i + 2]))
    {
      if i >= 2 {
        assert r[i] == rest[i - 2];
        assert i + 1 < |r| ==> r[i + 1] == rest[i - 1];
        assert i + 2 < |r| ==> r[i + 2] == rest[i];
      } else if i + 2 < |r| {
        assert r[2] == rest[0];
      }
    }
  }

  lemma {:induction false} MarksSpacedAfterOther(c: char, rest: string)
    requires !IsSentenceMark(c) && MarksSpaced(rest)
    ensures MarksSpaced([c] + rest)
  {
    var r := [c] + rest;
    forall i | 0 <= i < |r| && IsSentenceMark(r[i])
      ensures i + 1 < |r| && r[i + 1] == ' ' && (i + 2 < |r| ==> !IsSpace(r[i + 2]))
    {
      assert r[i] == rest[i - 1];
      assert i + 1 < |r| ==> r[i + 1] == rest[i];
      assert i + 2 < |r| ==> r[i + 2] == rest[i + 1];
    }
  }

  /** Spacing after marks moves whitespace only: the visible text is untouched. */
  lemma {:induction false} SpaceAfterMarksVisible(s: string, afterMark: bool)
    ensures NonSpace(SpaceAfterMarksFrom(s, afterMark)) == NonSpace(s)
    decreases |s|
  {
    if s == [] {
    } else if afterMark && IsSpace(s[0]) {
      SpaceAfterMarksVisible(s[1..], true);
      NonSpaceCons(s[0], s[1..]);
    } else if IsSentenceMark(s[0]) {
      SpaceAfterMarksVisible(s[1..], true);
      NonSpaceCons(s[0], s[1..]);
      MarkSpaceVisible(s[0], SpaceAfterMarksFrom(s[1..], true));
    } else {
      SpaceAfterMarksVisible(s[1..], false);
      NonSpaceCons(s[0], s[1..]);
      NonSpaceCons(s[0], SpaceAfterMarksFrom(s[1..], false));
    }
  }

  /** A sentence mark and the space written after it show only the mark. */
  lemma {:induction false} MarkSpaceVisible(m: char, rest: string)
    requires IsSentenceMark(m)
    ensures NonSpace([m, ' '] + rest) == [m] + NonSpace(rest)
  {
    assert !IsSpace(m) && IsSpace(' ');
    assert [m, ' '] + rest == [m] + ([' '] + rest);
    NonSpaceCons(m, [' '] + rest);
    NonSpaceCons(' ', rest);
  }

  /** The visible characters `clean_text` keeps from `s`: its word characters
      and kept symbols, in order. */
  function VisibleKept(s: string): (r: string)
  {
    if s == [] then [] else KeptHead(s[0]) + VisibleKept(s[1..])
  }

  /** What `VisibleKept` keeps of one character. */
  function KeptHead(c: char): string
  {
    if IsWordChar(c) || IsKeptSymbol(c) then [c] else []
  }

  /** The visible characters `DropDisallowed` keeps are exactly `VisibleKept`. */
  lemma {:induction false} DropDisallowedVisible(s: string)
    ensures NonSpace(DropDisallowed(s)) == VisibleKept(s)
    decreases |s|
  {
    if s != [] {
      DropDisallowedVisible(s[1..]);
      KeptHeadVisible(s[0]);
      if IsKept(s[0]) {
        NonSpaceCons(s[0], DropDisallowed(s[1..]));
      }
    }
  }

  /** A kept character is visible exactly when it is a word character or a
      kept symbol. */
  lemma {:induction false} KeptHeadVisible(c: char)
    ensures IsKept(c) && !IsSpace(c) <==> KeptHead(c) == [c]
    ensures KeptHead(c) == [] || KeptHead(c) == [c]
  {
    if IsWordChar(c) || IsKeptSymbol(c) {
      assert !IsSpace(c);
    }
  }

  /** `VisibleKept` does not look at whitespace. */
  lemma {:induction false} VisibleKeptIgnoresSpace(s: string)
    ensures VisibleKept(NonSpace(s)) == VisibleKept(s)
    decreases |s|
  {
    if s != [] {
      VisibleKeptIgnoresSpace(s[1..]);
      var head: string := if IsSpace(s[0]) then [] else [s[0]];
      NonSpaceCons(s[0], s[1..]);
      KeptHeadVisible(s[0]);
      VisibleKeptAppend(head, NonSpace(s[1..]));
    }
  }

  lemma {:induction false} VisibleKeptAppend(a: string, b: string)
    ensures VisibleKept(a + b) == VisibleKept(a) + VisibleKept(b)
    decreases |a|
  {
    if a == [] {
      assert a + b == b;
    } else {
      assert (a + b)[0] == a[0];
      assert (a + b)[1..] == a[1..] + b;
      VisibleKeptAppend(a[1..], b);
      assert VisibleKept(a + b) == KeptHead(a[0]) + (VisibleKept(a[1..]) + VisibleKept(b));
    }
  }

  /** A character `clean_text` may emit: `\w`, the space, or a kept symbol. */
  predicate IsCleanChar(c: char) {
    IsWordChar(c) || c == ' ' || IsKeptSymbol(c)
  }

  /** `clean_text` before its final `strip()`. */
  function SpacedText(content: string): (c: string)
    ensures forall i :: 0 <= i < |c| ==> IsCleanChar(c[i])
    ensures MarksSpaced(c)
  {
    var a := CollapseSpaces(content);
    var b := DropDisallowed(a);
    var c := SpaceAfterMarksFrom(b, false);
    SpaceAfterMarksShape(b, false);
    KeptClasses(a, b, c);
    c
  }

  /** After the collapse only `' '` is whitespace, so what survives the
      filter and the mark spacing is a clean character. */
  lemma {:induction false} KeptClasses(a: string, b: string, c: string)
    requires forall i :: 0 <= i < |a| && IsSpace(a[i]) ==> a[i] == ' '
    requires forall ch :: ch in b ==> IsKept(ch) && ch in a
    requires forall ch :: ch in c ==> ch == ' ' || ch in b
    ensures forall i :: 0 <= i < |c| ==> IsCleanChar(c[i])
  {
    forall i | 0 <= i < |c|
      ensures IsCleanChar(c[i])
    {
      assert c[i] in c;
    }
  }

  /** `NewtonDataPipeline.clean_text`: collapse whitespace, drop characters
      outside `[\w\s.,;:!?()-]`, put one space after each `. ! ?`, strip. */
  function CleanText(content: string): (r: string)
    ensures forall i :: 0 <= i < |r| ==> IsWordChar(r[i]) || r[i] == ' ' || IsKeptSymbol(r[i])
    ensures r == [] || (!IsSpace(r[0]) && !IsSpace(r[|r| - 1]))
    ensures forall i :: 0 <= i < |r| - 1 && IsSentenceMark(r[i]) ==>
              r[i + 1] == ' ' && i + 2 < |r| && !IsSpace(r[i + 2])
  {
    var c := SpacedText(content);
    StripKeepsMarkSpacing(c);
    StripKeepsCleanChars(c);
    Strip(c)
  }

  lemma {:induction false} StripKeepsCleanChars(c: string)
    requires forall i :: 0 <= i < |c| ==> IsCleanChar(c[i])
    ensures forall i :: 0 <= i < |Strip(c)| ==> IsCleanChar(Strip(c)[i])
  {
    var r := Strip(c);
    var o := StripOffset(c);
    forall i | 0 <= i < |r|
      ensures IsCleanChar(r[i])
    {
      assert r[i] == c[o + i];
    }
  }

  /** Cleaning loses no visible character it is meant to keep and adds
      none: outside whitespace, the result is the input's word characters
      and kept symbols, in order. */
  lemma {:induction false} CleanTextVisible(content: string)
    ensures NonSpace(CleanText(content)) == VisibleKept(content)
  {
    var a := CollapseSpaces(content);
    var b := DropDisallowed(a);
    var c := SpaceAfterMarksFrom(b, false);
    assert c == SpacedText(content);
    StripVisible(c);
    SpaceAfterMarksVisible(b, false);
    DropDisallowedVisible(a);
    VisibleKeptIgnoresSpace(a);
    VisibleKeptIgnoresSpace(content);
  }

  /** Stripping keeps "mark, one space, then a non-space" wherever the mark
      survives inside the stripped text. */
  lemma {:induction false} StripKeepsMarkSpacing(c: string)
    requires MarksSpaced(c)
    ensures var r := Strip(c);
              forall i :: 0 <= i < |r| - 1 && IsSentenceMark(r[i]) ==>
                r[i + 1] == ' ' && i + 2 < |r| && !IsSpace(r[i + 2])
  {
    MarksSpacedSlice(c, StripOffset(c), Strip(c));
  }

  /** A slice of a mark-spaced text with no whitespace at its ends keeps
      every mark followed by one space and a non-space. */
  lemma {:induction false} MarksSpacedSlice(c: string, o: nat, r: string)
    requires MarksSpaced(c)
    requires o + |r| <= |c| && r == c[o..o + |r|]
    requires Trimmed(r)
    ensures forall i :: 0 <= i < |r| - 1 && IsSentenceMark(r[i]) ==>
              r[i + 1] == ' ' && i + 2 < |r| && !IsSpace(r[i + 2])
  {
    forall i | 0 <= i < |r| - 1 && IsSentenceMark(r[i])
      ensures r[i + 1] == ' ' && i + 2 < |r| && !IsSpace(r[i + 2])
    {
      assert c[o + i] == r[i];
      assert r[i + 1] == c[o + i + 1];
      assert i + 2 < |r| ==> r[i + 2] == c[o + i + 2];
    }
  }

  // ---------------------------------------------------------------------
  // clean_text: what happens to whitespace between words
  // ---------------------------------------------------------------------

  /** The mark-spacing state after reading `s` from state `afterMark`. */
  function MarkState(s: string, afterMark: bool): bool
    decreases |s|
  {
    if s == [] then afterMark
    else MarkState(s[1..], (afterMark && IsSpace(s[0])) || IsSentenceMark(s[0]))
  }

  /** Mark spacing reads left to right: spacing `u + v` spaces `u`, then
      `v` from the state `u` left it in. */
  lemma {:induction false} SpaceAfterMarksAppend(u: string, v: string, afterMark: bool)
    ensures SpaceAfterMarksFrom(u + v, afterMark)
              == SpaceAfterMarksFrom(u, afterMark) + SpaceAfterMarksFrom(v, MarkState(u, afterMark))
    decreases |u|
  {
    if u == [] {
      assert u + v == v;
    } else {
      var n := (afterMark && IsSpace(u[0])) || IsSentenceMark(u[0]);
      assert (u + v)[0] == u[0];
      assert (u + v)[1..] == u[1..] + v;
      SpaceAfterMarksAppend(u[1..], v, n);
    }
  }

  /** Ending after a mark means the last thing written is the mark's space,
      unless nothing was written from the start state. */
  lemma {:induction false} MarkStateEndsInSpace(s: string, afterMark: bool)
    requires MarkState(s, afterMark)
    ensures var r := SpaceAfterMarksFrom(s, afterMark);
      (r == [] && afterMark) || (r != [] && r[|r| - 1] == ' ')
    decreases |s|
  {
    if s != [] {
      var n := (afterMark && IsSpace(s[0])) || IsSentenceMark(s[0]);
      var rest := SpaceAfterMarksFrom(s[1..], n);
      MarkStateEndsInSpace(s[1..], n);
      if rest != [] {
        var head: string := if afterMark && IsSpace(s[0]) then [] else if IsSentenceMark(s[0]) then [s[0], ' '] else [s[0]];
        assert SpaceAfterMarksFrom(s, afterMark) == head + rest;
        assert (head + rest)[|head + rest| - 1] == rest[|rest| - 1];
      }
    }
  }

  /** Whitespace between two visible parts survives the mark spacing: either
      it is kept, or the mark before it already wrote a space. */
  lemma {:induction false} SpaceAfterMarksSplits(y: string, x1: string, x2: string)
    requires SplitsAt(y, x1, x2)
    ensures SplitsAt(SpaceAfterMarksFrom(y, false), x1, x2)
  {
    var p, c, q := SplitPieces(y, x1, x2);
    var st := MarkState(p, false);
    var sp := SpaceAfterMarksFrom(p, false);
    var sq := SpaceAfterMarksFrom(q, st);
    SpaceAfterMarksSeam(p, c, q);
    assert NonSpace(sp) == x1 by {
      SpaceAfterMarksVisible(p, false);
    }
    assert NonSpace(sq) == x2 by {
      SpaceAfterMarksVisible(q, st);
    }
    if st {
      MarkStateEndsInSpace(p, false);
    }
    SplitsAtSeam(sp, c, sq, st);
  }

  /** Mark spacing around one whitespace character. */
  lemma {:induction false} SpaceAfterMarksSeam(p: string, c: char, q: string)
    requires IsSpace(c)
    ensures var st := MarkState(p, false);
      SpaceAfterMarksFrom(p + [c] + q, false)
        == SpaceAfterMarksFrom(p, false) + ((if st then [] else [c]) + SpaceAfterMarksFrom(q, st))
  {
    assert p + [c] + q == p + ([c] + q);
    SpaceAfterMarksAppend(p, [c] + q, false);
    SpaceAfterMarksSpace(c, q, MarkState(p, false));
  }

  /** One whitespace character: swallowed after a mark, kept otherwise. */
  lemma {:induction false} SpaceAfterMarksSpace(c: char, q: string, afterMark: bool)
    requires IsSpace(c)
    ensures SpaceAfterMarksFrom([c] + q, afterMark) == (if afterMark then [] else [c]) + SpaceAfterMarksFrom(q, afterMark)
  {
    assert ([c] + q)[0] == c;
    assert ([c] + q)[1..] == q;
    assert !IsSentenceMark(c);
  }

  /** The filter works character by character. */
  lemma {:induction false} DropDisallowedAppend(u: string, v: string)
    ensures DropDisallowed(u + v) == DropDisallowed(u) + DropDisallowed(v)
    decreases |u|
  {
    if u == [] {
      assert u + v == v;
    } else {
      assert (u + v)[0] == u[0];
      assert (u + v)[1..] == u[1..] + v;
      DropDisallowedAppend(u[1..], v);
    }
  }

  /** Whitespace is kept by the filter, so a split survives it with the
      kept visible characters on either side. */
  lemma {:induction false} DropDisallowedSplits(x: string, x1: string, x2: string)
    requires SplitsAt(x, x1, x2)
    ensures SplitsAt(DropDisallowed(x), VisibleKept(x1), VisibleKept(x2))
  {
    var p, c, q := SplitPieces(x, x1, x2);
    DropDisallowedSeam(p, c, q);
    SplitsAtMiddle(DropDisallowed(p), c, DropDisallowed(q));
    assert NonSpace(DropDisallowed(p)) == VisibleKept(x1) by {
      DropDisallowedVisible(p);
      VisibleKeptIgnoresSpace(p);
    }
    assert NonSpace(DropDisallowed(q)) == VisibleKept(x2) by {
      DropDisallowedVisible(q);
      VisibleKeptIgnoresSpace(q);
    }
  }

  /** The filter keeps a whitespace character between two texts. */
  lemma {:induction false} DropDisallowedSeam(p: string, c: char, q: string)
    requires IsSpace(c)
    ensures DropDisallowed(p + [c] + q) == DropDisallowed(p) + [c] + DropDisallowed(q)
  {
    DropDisallowedAppend(p + [c], q);
    DropDisallowedAppend(p, [c]);
    assert DropDisallowed([c]) == [c] by {
      assert [c][1..] == [];
    }
  }

  /** Words stay apart: whitespace between two parts that both keep some
      visible character leaves at least one space between what `clean_text`
      keeps of them. */
  lemma {:induction false} CleanTextSeparates(a: string, w: char, b: string)
    requires IsSpace(w) && VisibleKept(a) != [] && VisibleKept(b) != []
    ensures SplitsAt(CleanText(a + [w] + b), VisibleKept(a), VisibleKept(b))
  {
    var x := CollapseSpaces(a + [w] + b);
    CollapseSplits(a, w, b);
    DropDisallowedSplits(x, NonSpace(a), NonSpace(b));
    VisibleKeptIgnoresSpace(a);
    VisibleKeptIgnoresSpace(b);
    SpaceAfterMarksSplits(DropDisallowed(x), VisibleKept(a), VisibleKept(b));
    StripKeepsSplit(SpacedText(a + [w] + b), VisibleKept(a), VisibleKept(b));
  }

  /** On text of kept characters without sentence marks, `clean_text` is
      `' '.join(s.split())`: only the whitespace changes, each run becoming
      one space and the ends trimmed. */
  lemma {:induction false} CleanTextPlain(s: string)
    requires forall i :: 0 <= i < |s| ==> IsKept(s[i]) && !IsSentenceMark(s[i])
    ensures CleanText(s) == Join(Words(s), " ")
  {
    var c := CollapseSpaces(s);
    CollapseKeepsChars(s, false);
    assert forall i :: 0 <= i < |c| ==> IsKept(c[i]) && !IsSentenceMark(c[i]) by {
      forall i | 0 <= i < |c|
        ensures IsKept(c[i]) && !IsSentenceMark(c[i])
      {
        assert c[i] in c;
        if c[i] != ' ' {
          var k :| 0 <= k < |s| && s[k] == c[i];
        }
      }
    }
    DropDisallowedKeeps(c);
    SpaceAfterMarksNoMarks(c);
    StripCollapseWords(s);
  }

  /** The filter leaves text of kept characters alone. */
  lemma {:induction false} DropDisallowedKeeps(s: string)
    requires forall i :: 0 <= i < |s| ==> IsKept(s[i])
    ensures DropDisallowed(s) == s
    decreases |s|
  {
    if s != [] {
      DropDisallowedKeeps(s[1..]);
      assert [s[0]] + s[1..] == s;
    }
  }

  /** Mark spacing leaves text without sentence marks alone. */
  lemma {:induction false} SpaceAfterMarksNoMarks(s: string)
    requires forall i :: 0 <= i < |s| ==> !IsSentenceMark(s[i])
    ensures SpaceAfterMarksFrom(s, false) == s
    decreases |s|
  {
    if s != [] {
      SpaceAfterMarksNoMarks(s[1..]);
      assert [s[0]] + s[1..] == s;
    }
  }

  // ---------------------------------------------------------------------
  // chunk_text
  // ---------------------------------------------------------------------

  /** `s` holds no occurrence of the sentence separator `". "`. */
  ghost predicate NoSeparator(s: string) {
    forall i :: 0 <= i < |s| - 1 ==> !(s[i] == '.' && s[i + 1] == ' ')
  }

  /** `text.split('. ')`: the unique list of separator-free pieces whose
      `". "`-join gives back the text. */
  function SplitSentences(text: string): (parts: seq<string>)
    ensures |parts| >= 1
    ensures |parts[0]| <= |text| && parts[0] == text[..|parts[0]|]
    ensures Join(parts, ". ") == text
    ensures forall k :: 0 <= k < |parts| ==> NoSeparator(parts[k])
    decreases |text|
  {
    if |text| < 2 then
      [text]
    else if text[0] == '.' && text[1] == ' ' then
      var rest := SplitSentences(text[2..]);
      SplitAtSeparator(text, rest);
      [""] + rest
    else
      var rest := SplitSentences(text[1..]);
      SplitExtendFirst(text, rest);
      [[text[0]] + rest[0]] + rest[1..]
  }

  /** A text opening with the separator splits into an empty piece and the
      split of the remainder. */
  lemma {:induction false} SplitAtSeparator(text: string, rest: seq<string>)
    requires |text| >= 2 && text[0] == '.' && text[1] == ' '
    requires |rest| >= 1 && Join(rest, ". ") == text[2..]
    requires forall k :: 0 <= k < |rest| ==> NoSeparator(rest[k])
    ensures var parts := [""] + rest;
            && Join(parts, ". ") == text
            && forall k :: 0 <= k < |parts| ==> NoSeparator(parts[k])
  {
    JoinCons("", rest, ". ");
    assert text == "" + ". " + text[2..];
    var parts := [""] + rest;
    assert forall k :: 1 <= k < |parts| ==> parts[k] == rest[k - 1];
  }

  /** A text not opening with the separator puts its first character in
      front of the first piece of the remainder's split. */
  lemma {:induction false} SplitExtendFirst(text: string, rest: seq<string>)
    requires |text| >= 2 && !(text[0] == '.' && text[1] == ' ')
    requires |rest| >= 1 && |rest[0]| <= |text| - 1 && rest[0] == text[1..][..|rest[0]|]
    requires Join(rest, ". ") == text[1..]
    requires forall k :: 0 <= k < |rest| ==> NoSeparator(rest[k])
    ensures var parts := [[text[0]] + rest[0]] + rest[1..];
            && |parts[0]| <= |text| && parts[0] == text[..|parts[0]|]
            && Join(parts, ". ") == text
            && forall k :: 0 <= k < |parts| ==> NoSeparator(parts[k])
  {
    var first := [text[0]] + rest[0];
    NoSeparatorCons(text[0], rest[0], text[1..]);
    JoinExtendFirst(text[0], rest, ". ");
    assert text == [text[0]] + text[1..];
    assert first == text[..|first|];
    var parts := [first] + rest[1..];
    assert forall k :: 1 <= k < |parts| ==> parts[k] == rest[k];
  }

  lemma {:induction false} JoinExtendFirst(c: char, ps: seq<string>, sep: string)
    requires ps != []
    ensures Join([[c] + ps[0]] + ps[1..], sep) == [c] + Join(ps, sep)
  {
    if |ps| > 1 {
      assert ([[c] + ps[0]] + ps[1..])[1..] == ps[1..];
    }
  }

  /** Prefixing a character to a separator-free piece cannot create a
      separator unless it is a `.` landing before a space. */
  lemma {:induction false} NoSeparatorCons(c: char, p: string, after: string)
    requires NoSeparator(p)
    requires |p| <= |after| && p == after[..|p|]
    requires c == '.' ==> after == [] || after[0] != ' '
    ensures NoSeparator([c] + p)
  {
    var q := [c] + p;
    forall i, j | 0 <= i && j == i + 1 && j < |q|
      ensures !(q[i] == '.' && q[j] == ' ')
    {
      if i == 0 {
        assert q[1] == p[0] == after[0];
      } else {
        assert q[i] == p[i - 1] && q[j] == p[j - 1];
      }
    }
  }

  /** The buffer `chunk_text` builds from a run of sentences: each sentence
      followed by `". "`. */
  function Render(run: seq<string>): string
  {
    if run == [] then [] else run[0] + ". " + Render(run[1..])
  }

  lemma {:induction false} RenderAppend(run: seq<string>, s: string)
    ensures Render(run + [s]) == Render(run) + s + ". "
    decreases |run|
  {
    if run == [] {
      assert [s][1..] == [];
    } else {
      assert (run + [s])[1..] == run[1..] + [s];
      RenderAppend(run[1..], s);
    }
  }

  /** A rendered run of at least one sentence ends in a space and keeps a
      visible `.`, so `strip()` shortens it and leaves something. */
  lemma {:induction false} RenderShape(run: seq<string>)
    requires run != []
    ensures Render(run)[|run[0]|] == '.'
    ensures Render(run)[|Render(run)| - 1] == ' '
    decreases |run|
  {
    if |run| > 1 {
      RenderShape(run[1..]);
    }
  }

  /** `current_chunk.strip()` is empty exactly when the buffer holds no sentence. */
  lemma {:induction false} RenderStripEmpty(run: seq<string>)
    ensures Strip(Render(run)) == [] <==> run == []
  {
    StripEmptyIffAllSpace(Render(run));
    if run != [] {
      RenderShape(run);
    }
  }

  /** The greedy grouping performed by `chunk_text`.  `open` is the run of
      sentences in the buffer; a sentence joins it while buffer plus sentence
      fits in `chunkSize`, otherwise the buffer is emitted (when it holds
      anything) and the sentence starts the next one. */
  function Runs(sentences: seq<string>, open: seq<string>, chunkSize: int): (r: seq<seq<string>>)
    ensures |r| <= |open| + |sentences|
    ensures open != [] || sentences != [] ==> r != []
    decreases |sentences|
  {
    if sentences == [] then
      (if open == [] then [] else [open])
    else if |Render(open)| + |sentences[0]| <= chunkSize then
      Runs(sentences[1..], open + [sentences[0]], chunkSize)
    else
      (if open == [] then [] else [open]) + Runs(sentences[1..], [sentences[0]], chunkSize)
  }

  /** One step of the greedy grouping, at sentence `i`. */
  lemma {:induction false} RunsStep(sentences: seq<string>, i: nat, open: seq<string>, chunkSize: int)
    requires i < |sentences|
    ensures |Render(open)| + |sentences[i]| <= chunkSize ==>
              Runs(sentences[i..], open, chunkSize) == Runs(sentences[i + 1..], open + [sentences[i]], chunkSize)
    ensures |Render(open)| + |sentences[i]| > chunkSize ==>
              Runs(sentences[i..], open, chunkSize)
              == (if open == [] then [] else [open]) + Runs(sentences[i + 1..], [sentences[i]], chunkSize)
  {
    assert sentences[i..][1..] == sentences[i + 1..];
  }

  /** The loop of `chunk_text` when the sentence fits in the buffer. */
  lemma {:induction false} FitStep(sentences: seq<string>, i: nat, open: seq<string>, closed: seq<seq<string>>, chunkSize: int)
    requires i < |sentences| && |Render(open)| + |sentences[i]| <= chunkSize
    requires closed + Runs(sentences[i..], open, chunkSize) == Runs(sentences, [], chunkSize)
    ensures closed + Runs(sentences[i + 1..], open + [sentences[i]], chunkSize) == Runs(sentences, [], chunkSize)
    ensures Render(open + [sentences[i]]) == Render(open) + sentences[i] + ". "
  {
    RunsStep(sentences, i, open, chunkSize);
    RenderAppend(open, sentences[i]);
  }

  /** The loop of `chunk_text` when the sentence does not fit: the buffer is
      emitted exactly when it holds a sentence. */
  lemma {:induction false} BreakStep(sentences: seq<string>, i: nat, open: seq<string>, closed: seq<seq<string>>, chunkSize: int)
    requires i < |sentences| && |Render(open)| + |sentences[i]| > chunkSize
    requires closed + Runs(sentences[i..], open, chunkSize) == Runs(sentences, [], chunkSize)
    ensures (if open == [] then closed else closed + [open]) + Runs(sentences[i + 1..], [sentences[i]], chunkSize)
            == Runs(sentences, [], chunkSize)
    ensures Render([sentences[i]]) == sentences[i] + ". "
  {
    assert [sentences[i]][1..] == [];
    RunsStep(sentences, i, open, chunkSize);
    var rest := Runs(sentences[i + 1..], [sentences[i]], chunkSize);
    if open != [] {
      assert closed + ([open] + rest) == (closed + [open]) + rest;
    } else {
      assert closed + ([] + rest) == closed + rest;
    }
  }

  /** After the loop of `chunk_text`: the final flush completes the runs. */
  lemma {:induction false} LastStep(sentences: seq<string>, open: seq<string>, closed: seq<seq<string>>, chunkSize: int)
    requires closed + Runs(sentences[|sentences|..], open, chunkSize) == Runs(sentences, [], chunkSize)
    ensures (Strip(Render(open)) != []) == (open != [])
    ensures (if open == [] then closed else closed + [open]) == Runs(sentences, [], chunkSize)
  {
    assert sentences[|sentences|..] == [];
    RenderStripEmpty(open);
  }

  /** The runs of sentences the chunks of `text` are built from. */
  function SentenceRuns(text: string, chunkSize: int): seq<seq<string>>
  {
    Runs(SplitSentences(text), [], chunkSize)
  }

  function Flatten(runs: seq<seq<string>>): seq<string>
  {
    if runs == [] then [] else runs[0] + Flatten(runs[1..])
  }

  lemma {:induction false} FlattenAppend(a: seq<seq<string>>, b: seq<seq<string>>)
    ensures Flatten(a + b) == Flatten(a) + Flatten(b)
    decreases |a|
  {
    if a == [] {
      assert a + b == b;
    } else {
      assert (a + b)[1..] == a[1..] + b;
      FlattenAppend(a[1..], b);
    }
  }

  /** The runs cut `open + sentences` into non-empty, contiguous pieces, in order. */
  lemma {:induction false} RunsPartition(sentences: seq<string>, open: seq<string>, chunkSize: int)
    ensures Flatten(Runs(sentences, open, chunkSize)) == open + sentences
    ensures forall k :: 0 <= k < |Runs(sentences, open, chunkSize)| ==> Runs(sentences, open, chunkSize)[k] != []
    decreases |sentences|
  {
    if sentences == [] {
      assert open + sentences == open;
      if open != [] {
        assert Flatten([open]) == open + Flatten([]);
      }
    } else {
      var s := sentences[0];
      if |Render(open)| + |s| <= chunkSize {
        RunsPartition(sentences[1..], open + [s], chunkSize);
        assert open + [s] + sentences[1..] == open + sentences;
      } else {
        var head: seq<seq<string>> := if open == [] then [] else [open];
        RunsPartition(sentences[1..], [s], chunkSize);
        FlattenAppend(head, Runs(sentences[1..], [s], chunkSize));
        assert Flatten(head) == open by {
          if open != [] {
            assert Flatten([open]) == open + Flatten([]);
          }
        }
        assert [s] + sentences[1..] == sentences;
      }
    }
  }

  /** Each chunk's sentences, in chunk order, are exactly the sentences of
      the text: no sentence is lost, repeated, reordered or split. */
  lemma {:induction false} SentenceRunsPartition(text: string, chunkSize: int)
    ensures Flatten(SentenceRuns(text, chunkSize)) == SplitSentences(text)
    ensures |SentenceRuns(text, chunkSize)| >= 1
    ensures forall k :: 0 <= k < |SentenceRuns(text, chunkSize)| ==> SentenceRuns(text, chunkSize)[k] != []
  {
    RunsPartition(SplitSentences(text), [], chunkSize);
    assert [] + SplitSentences(text) == SplitSentences(text);
  }

  /** A run of two or more sentences renders to at most `chunkSize + 2`
      characters: the last sentence was only added because it fitted. */
  lemma {:induction false} RunsSizeBound(sentences: seq<string>, open: seq<string>, chunkSize: int)
    requires |open| >= 2 ==> |Render(open)| <= chunkSize + 2
    ensures forall k :: 0 <= k < |Runs(sentences, open, chunkSize)| && |Runs(sentences, open, chunkSize)[k]| >= 2 ==>
              |Render(Runs(sentences, open, chunkSize)[k])| <= chunkSize + 2
    decreases |sentences|
  {
    if sentences != [] {
      var s := sentences[0];
      if |Render(open)| + |s| <= chunkSize {
        RenderAppend(open, s);
        RunsSizeBound(sentences[1..], open + [s], chunkSize);
      } else {
        RunsSizeBound(sentences[1..], [s], chunkSize);
      }
    }
  }

  /** Each buffer but the last was emitted because the next run's first
      sentence did not fit after it. */
  predicate Greedy(runs: seq<seq<string>>, chunkSize: int) {
    forall k :: 0 < k < |runs| ==> runs[k] != [] && |Render(runs[k - 1])| + |runs[k][0]| > chunkSize
  }

  /** Greedy maximality: the buffer emitted for one chunk could not have
      taken the first sentence of the next chunk. */
  lemma {:induction false} RunsGreedy(sentences: seq<string>, open: seq<string>, chunkSize: int)
    ensures Greedy(Runs(sentences, open, chunkSize), chunkSize)
    decreases |sentences|
  {
    RunsPartition(sentences, open, chunkSize);
    if sentences != [] {
      var s := sentences[0];
      if |Render(open)| + |s| <= chunkSize {
        RunsGreedy(sentences[1..], open + [s], chunkSize);
      } else {
        var rest := Runs(sentences[1..], [s], chunkSize);
        RunsGreedy(sentences[1..], [s], chunkSize);
        RunsPartition(sentences[1..], [s], chunkSize);
        assert rest[0][0] == s by {
          assert Flatten(rest) == rest[0] + Flatten(rest[1..]);
          assert Flatten(rest)[0] == ([s] + sentences[1..])[0];
        }
      }
    }
  }

  /** Consecutive chunks of a text are greedy-maximal. */
  lemma {:induction false} SentenceRunsGreedy(text: string, chunkSize: int)
    ensures Greedy(SentenceRuns(text, chunkSize), chunkSize)
  {
    RunsGreedy(SplitSentences(text), [], chunkSize);
  }

  /** One passage of a source document. */
  datatype Chunk = Chunk(text: string, title: string, url: string, chunkIndex: int, sourceType: string)

  const WikipediaSource := "wikipedia"

  /** The text `chunk_text` emits for a run: the stripped buffer. */
  function RunText(run: seq<string>): string
  {
    Strip(Render(run))
  }

  lemma {:induction false} StripDotSpace()
    ensures Strip(". ") == "."
  {
    assert !IsSpace('.') && IsSpace(' ');
    assert StripOffset(". ") == 0;
    assert ". "[0..1] == ".";
  }

  /** Chunk records for a list of texts, numbered from 0 in order. */
  function ChunksOf(texts: seq<string>, title: string, url: string): (chunks: seq<Chunk>)
    ensures |chunks| == |texts|
    ensures forall k :: 0 <= k < |texts| ==> chunks[k] == Chunk(texts[k], title, url, k, WikipediaSource)
    decreases |texts|
  {
    if texts == [] then []
    else ChunksOf(texts[..|texts| - 1], title, url) + [Chunk(texts[|texts| - 1], title, url, |texts| - 1, WikipediaSource)]
  }

  lemma {:induction false} ChunksOfSnoc(runs: seq<seq<string>>, run: seq<string>, title: string, url: string)
    ensures ChunksOf(MapSeq(runs + [run], RunText), title, url)
            == ChunksOf(MapSeq(runs, RunText), title, url) + [Chunk(RunText(run), title, url, |runs|, WikipediaSource)]
  {
    assert (runs + [run])[..|runs|] == runs;
    var t := MapSeq(runs + [run], RunText);
    assert t[..|runs|] == MapSeq(runs, RunText);
  }

  /** `NewtonDataPipeline.chunk_text`, loop for loop: one chunk per run of
      `SentenceRuns`, in order. */
  method ChunkText(text: string, title: string, url: string, chunkSize: int) returns (chunks: seq<Chunk>)
    ensures chunks == ChunksOf(MapSeq(SentenceRuns(text, chunkSize), RunText), title, url)
    ensures |chunks| >= 1
    ensures forall k :: 0 <= k < |chunks| ==>
              && chunks[k].chunkIndex == k
              && chunks[k].title == title && chunks[k].url == url
              && chunks[k].sourceType == WikipediaSource
              && chunks[k].text != [] && Trimmed(chunks[k].text)
  {
    var sentences := SplitSentences(text);
    chunks := [];
    var currentChunk := "";
    var chunkIndex := 0;
    ghost var open: seq<string> := [];
    ghost var closed: seq<seq<string>> := [];
    for i := 0 to |sentences|
      invariant ChunkLoop(sentences, i, chunkSize, title, url, chunks, currentChunk, chunkIndex, open, closed)
    {
      chunks, currentChunk, chunkIndex, open, closed :=
        ChunkStep(sentences, i, chunkSize, title, url, chunks, currentChunk, chunkIndex, open, closed);
    }
    LastStep(sentences, open, closed, chunkSize);
    chunks, chunkIndex, closed := EmitBuffer(chunks, currentChunk, chunkIndex, title, url, open, closed);
    ChunkTextShape(text, title, url, chunkSize, chunks);
  }

  /** The state of the loop of `chunk_text` before sentence `i`: the buffer
      renders the open run, the chunks so far are those of the closed runs,
      and closed runs followed by the grouping of what is left give the
      grouping of the whole text. */
  ghost predicate ChunkLoop(sentences: seq<string>, i: nat, chunkSize: int, title: string, url: string,
                            chunks: seq<Chunk>, currentChunk: string, chunkIndex: int,
                            open: seq<string>, closed: seq<seq<string>>)
  {
    && i <= |sentences|
    && currentChunk == Render(open)
    && chunkIndex == |closed|
    && chunks == ChunksOf(MapSeq(closed, RunText), title, url)
    && closed + Runs(sentences[i..], open, chunkSize) == Runs(sentences, [], chunkSize)
  }

  /** One pass of the loop of `chunk_text`: the sentence joins the buffer
      when it fits, otherwise the buffer is flushed and the sentence starts
      a new one. */
  method ChunkStep(sentences: seq<string>, i: nat, chunkSize: int, title: string, url: string,
                   chunks: seq<Chunk>, currentChunk: string, chunkIndex: int,
                   ghost open: seq<string>, ghost closed: seq<seq<string>>)
    returns (chunks': seq<Chunk>, currentChunk': string, chunkIndex': int,
             ghost open': seq<string>, ghost closed': seq<seq<string>>)
    requires i < |sentences|
    requires ChunkLoop(sentences, i, chunkSize, title, url, chunks, currentChunk, chunkIndex, open, closed)
    ensures ChunkLoop(sentences, i + 1, chunkSize, title, url, chunks', currentChunk', chunkIndex', open', closed')
    ensures |chunks| <= |chunks'| <= |chunks| + 1 && chunks'[..|chunks|] == chunks
  {
    var sentence := sentences[i];
    if |currentChunk + sentence| <= chunkSize {
      FitLoop(sentences, i, chunkSize, title, url, chunks, currentChunk, chunkIndex, open, closed);
      chunks', chunkIndex', closed' := chunks, chunkIndex, closed;
      currentChunk' := currentChunk + sentence + ". ";
      open' := open + [sentence];
    } else {
      chunks', chunkIndex', closed' := EmitBuffer(chunks, currentChunk, chunkIndex, title, url, open, closed);
      currentChunk' := sentence + ". ";
      open' := [sentence];
      BreakLoop(sentences, i, chunkSize, title, url, currentChunk, open, closed, chunks', chunkIndex', closed');
    }
  }

  lemma {:induction false} FitLoop(sentences: seq<string>, i: nat, chunkSize: int, title: string, url: string,
                                   chunks: seq<Chunk>, currentChunk: string, chunkIndex: int,
                                   open: seq<string>, closed: seq<seq<string>>)
    requires i < |sentences|
    requires ChunkLoop(sentences, i, chunkSize, title, url, chunks, currentChunk, chunkIndex, open, closed)
    requires |currentChunk + sentences[i]| <= chunkSize
    ensures ChunkLoop(sentences, i + 1, chunkSize, title, url, chunks, currentChunk + sentences[i] + ". ",
                      chunkIndex, open + [sentences[i]], closed)
  {
    FitStep(sentences, i, open, closed, chunkSize);
  }

  lemma {:induction false} BreakLoop(sentences: seq<string>, i: nat, chunkSize: int, title: string, url: string,
                                     currentChunk: string, open: seq<string>, closed: seq<seq<string>>,
                                     chunks': seq<Chunk>, chunkIndex': int, closed': seq<seq<string>>)
    requires i < |sentences|
    requires currentChunk == Render(open)
    requires closed + Runs(sentences[i..], open, chunkSize) == Runs(sentences, [], chunkSize)
    requires |currentChunk + sentences[i]| > chunkSize
    requires closed' == if open == [] then closed else closed + [open]
    requires chunkIndex' == |closed'|
    requires chunks' == ChunksOf(MapSeq(closed', RunText), title, url)
    ensures ChunkLoop(sentences, i + 1, chunkSize, title, url, chunks', sentences[i] + ". ",
                      chunkIndex', [sentences[i]], closed')
  {
    BreakStep(sentences, i, open, closed, chunkSize);
  }

  /** The shape `chunk_text` promises of its chunks: at least one, numbered
      in order, well-formed, and `"."` alone for an empty page. */
  lemma {:induction false} ChunkTextShape(text: string, title: string, url: string, chunkSize: int, chunks: seq<Chunk>)
    requires chunks == ChunksOf(MapSeq(SentenceRuns(text, chunkSize), RunText), title, url)
    ensures |chunks| >= 1
    ensures forall k :: 0 <= k < |chunks| ==>
              && chunks[k].chunkIndex == k
              && chunks[k].title == title && chunks[k].url == url
              && chunks[k].sourceType == WikipediaSource
              && chunks[k].text != [] && Trimmed(chunks[k].text)
    ensures text == [] ==> chunks == [Chunk(".", title, url, 0, WikipediaSource)]
  {
    ChunksNonEmpty(text, title, url, chunkSize);
    ChunksWellFormed(text, title, url, chunkSize, chunks);
    if text == [] {
      ChunksOfEmptyText(text, title, url, chunkSize);
    }
  }

  /** The flush of `chunk_text`: the stripped buffer becomes the next chunk
      unless it is empty, which happens exactly when it holds no sentence. */
  method EmitBuffer(chunks: seq<Chunk>, currentChunk: string, chunkIndex: int, title: string, url: string,
                    ghost open: seq<string>, ghost closed: seq<seq<string>>)
    returns (chunks': seq<Chunk>, chunkIndex': int, ghost closed': seq<seq<string>>)
    requires currentChunk == Render(open)
    requires chunkIndex == |closed|
    requires chunks == ChunksOf(MapSeq(closed, RunText), title, url)
    ensures closed' == if open == [] then closed else closed + [open]
    ensures chunkIndex' == |closed'|
    ensures chunks' == ChunksOf(MapSeq(closed', RunText), title, url)
    ensures open != [] ==> chunks' == chunks + [Chunk(Strip(currentChunk), title, url, chunkIndex, WikipediaSource)]
  {
    RenderStripEmpty(open);
    if Strip(currentChunk) != [] {
      ChunksOfSnoc(closed, open, title, url);
      chunks' := chunks + [Chunk(Strip(currentChunk), title, url, chunkIndex, WikipediaSource)];
      chunkIndex' := chunkIndex + 1;
      closed' := closed + [open];
    } else {
      chunks', chunkIndex', closed' := chunks, chunkIndex, closed;
    }
  }

  /** `chunk_text` always emits at least one chunk. */
  lemma {:induction false} ChunksNonEmpty(text: string, title: string, url: string, chunkSize: int)
    ensures |ChunksOf(MapSeq(SentenceRuns(text, chunkSize), RunText), title, url)| >= 1
  {
    SentenceRunsPartition(text, chunkSize);
  }

  /** Chunk `k` carries index `k`, the page's title and url, the source tag,
      and a non-empty text with no whitespace at either end. */
  lemma {:induction false} ChunksWellFormed(text: string, title: string, url: string, chunkSize: int, chunks: seq<Chunk>)
    requires chunks == ChunksOf(MapSeq(SentenceRuns(text, chunkSize), RunText), title, url)
    ensures forall k :: 0 <= k < |chunks| ==>
              && chunks[k].chunkIndex == k
              && chunks[k].title == title && chunks[k].url == url
              && chunks[k].sourceType == WikipediaSource
              && chunks[k].text != [] && Trimmed(chunks[k].text)
  {
    var runs := SentenceRuns(text, chunkSize);
    SentenceRunsNonEmpty(text, chunkSize);
    RunTextsTrimmed(runs);
    ChunksOfWellFormed(MapSeq(runs, RunText), title, url);
  }

  lemma {:induction false} ChunksOfWellFormed(texts: seq<string>, title: string, url: string)
    requires forall k :: 0 <= k < |texts| ==> texts[k] != [] && Trimmed(texts[k])
    ensures var chunks := ChunksOf(texts, title, url);
            forall k :: 0 <= k < |chunks| ==>
              && chunks[k].chunkIndex == k
              && chunks[k].title == title && chunks[k].url == url
              && chunks[k].sourceType == WikipediaSource
              && chunks[k].text != [] && Trimmed(chunks[k].text)
  {
  }

  lemma {:induction false} SentenceRunsNonEmpty(text: string, chunkSize: int)
    ensures forall k :: 0 <= k < |SentenceRuns(text, chunkSize)| ==> SentenceRuns(text, chunkSize)[k] != []
  {
    SentenceRunsPartition(text, chunkSize);
  }

  /** Every non-empty run gives a non-empty, stripped chunk text. */
  lemma {:induction false} RunTextsTrimmed(runs: seq<seq<string>>)
    requires forall k :: 0 <= k < |runs| ==> runs[k] != []
    ensures forall k :: 0 <= k < |runs| ==> MapSeq(runs, RunText)[k] != [] && Trimmed(MapSeq(runs, RunText)[k])
  {
    var texts := MapSeq(runs, RunText);
    forall k | 0 <= k < |runs|
      ensures texts[k] != [] && Trimmed(texts[k])
    {
      RunTextTrimmed(runs[k]);
    }
  }

  /** A run holding a sentence yields a non-empty stripped text. */
  lemma {:induction false} RunTextTrimmed(run: seq<string>)
    requires run != []
    ensures RunText(run) != [] && Trimmed(RunText(run))
  {
    RenderStripEmpty(run);
  }

  /** A chunk holding two or more sentences is at most `chunkSize + 1`
      characters long: only a single over-long sentence exceeds the budget. */
  lemma {:induction false} ChunksBounded(text: string, title: string, url: string, chunkSize: int)
    ensures var runs := SentenceRuns(text, chunkSize);
            var chunks := ChunksOf(MapSeq(runs, RunText), title, url);
            forall k :: 0 <= k < |chunks| && |runs[k]| >= 2 ==> |chunks[k].text| <= chunkSize + 1
  {
    var runs := SentenceRuns(text, chunkSize);
    var texts := MapSeq(runs, RunText);
    var chunks := ChunksOf(texts, title, url);
    SentenceRunsChunkable(text, chunkSize);
    forall k | 0 <= k < |chunks| && |runs[k]| >= 2
      ensures |chunks[k].text| <= chunkSize + 1
    {
      assert chunks[k] == Chunk(texts[k], title, url, k, WikipediaSource);
    }
  }

  /** Empty page text gives the single chunk `"."`. */
  lemma {:induction false} ChunksOfEmptyText(text: string, title: string, url: string, chunkSize: int)
    requires text == []
    ensures ChunksOf(MapSeq(SentenceRuns(text, chunkSize), RunText), title, url) == [Chunk(".", title, url, 0, WikipediaSource)]
  {
    assert text == "";
    EmptyTextRuns(chunkSize);
    var texts := MapSeq(SentenceRuns(text, chunkSize), RunText);
    assert texts[0] == RunText([""]) == ".";
  }

  /** Every run yields a non-empty chunk text, and a run of two or more
      sentences yields at most `chunkSize + 1` characters. */
  lemma {:induction false} SentenceRunsChunkable(text: string, chunkSize: int)
    ensures forall k :: 0 <= k < |SentenceRuns(text, chunkSize)| ==>
              var run := SentenceRuns(text, chunkSize)[k];
              && Strip(Render(run)) != []
              && (|run| >= 2 ==> |Strip(Render(run))| <= chunkSize + 1)
  {
    var runs := SentenceRuns(text, chunkSize);
    SentenceRunsPartition(text, chunkSize);
    RunsSizeBound(SplitSentences(text), [], chunkSize);
    forall k | 0 <= k < |runs|
      ensures Strip(Render(runs[k])) != []
      ensures |runs[k]| >= 2 ==> |Strip(Render(runs[k]))| <= chunkSize + 1
    {
      RenderStripEmpty(runs[k]);
      RenderShape(runs[k]);
      StripDropsTrailingSpace(Render(runs[k]));
    }
  }

  /** The empty text is one empty sentence, which becomes the chunk ".". */
  lemma {:induction false} EmptyTextRuns(chunkSize: int)
    ensures SentenceRuns("", chunkSize) == [[""]]
    ensures Strip(Render([""])) == "."
  {
    assert SplitSentences("") == [""];
    var sentences: seq<string> := [""];
    assert sentences[1..] == [];
    assert Render([]) == [];
    assert [] + [""] == [""];
    if 0 <= chunkSize {
      assert Runs(sentences, [], chunkSize) == Runs([], [""], chunkSize);
    } else {
      assert Runs(sentences, [], chunkSize) == [] + Runs([], [""], chunkSize);
    }
    assert Render([""]) == ". ";
    StripDotSpace();
  }

  // ---------------------------------------------------------------------
  // store_in_qdrant: payload mapping
  // ---------------------------------------------------------------------

  /** A vector-index point without its generated id: the embedding and the
      chunk's five fields as payload. */
  datatype Point = Point(vector: seq<real>, payload: Chunk)

  /** The points `store_in_qdrant` upserts: `zip(chunks, embeddings)`, so the
      k-th chunk travels with the k-th embedding and the longer list's tail
      is dropped. */
  function StorePoints(chunks: seq<Chunk>, embeddings: seq<seq<real>>): (points: seq<Point>)
    ensures |points| == Min(|chunks|, |embeddings|)
    ensures forall k :: 0 <= k < |points| ==> points[k].payload == chunks[k] && points[k].vector == embeddings[k]
  {
    if chunks == [] || embeddings == [] then []
    else [Point(embeddings[0], chunks[0])] + StorePoints(chunks[1..], embeddings[1..])
  }
}
