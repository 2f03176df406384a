/** `helperClass` of the book-store assignment: the static string helpers
    used by the book and comment tables. */
module Helpers {
  import opened Wrappers
  import opened PyText

  // ---------------------------------------------------------------------
  // maxLength

  /** The longest `str(item[key])` over the records that have `key`;
      ValueError when no record has it. */
  method MaxLength(data: seq<Record>, key: string) returns (r: Result<nat>)
    ensures r.Err? <==> forall i :: 0 <= i < |data| ==> key !in data[i]
    ensures r.Err? ==> r.error == ValueError
    ensures r.Ok? ==> forall i :: 0 <= i < |data| && key in data[i] ==> |ValueToStr(data[i][key])| <= r.value
    ensures r.Ok? ==> exists i :: 0 <= i < |data| && key in data[i] && |ValueToStr(data[i][key])| == r.value
  {
    var maxLength: nat := 0;
    var foundKey := false;
    var at := 0;
    for i := 0 to |data|
      invariant foundKey <==> exists j :: 0 <= j < i && key in data[j]
      invariant forall j :: 0 <= j < i && key in data[j] ==> |ValueToStr(data[j][key])| <= maxLength
      invariant foundKey ==> 0 <= at < i && key in data[at] && |ValueToStr(data[at][key])| == maxLength
      invariant !foundKey ==> maxLength == 0
    {
      if key in data[i] {
        foundKey := true;
        var length := |ValueToStr(data[i][key])|;
        if length >= maxLength {
          maxLength, at := length, i;
        }
      }
    }
    if !foundKey {
      return Err(ValueError);
    }
    return Ok(maxLength);
  }

  // ---------------------------------------------------------------------
  // add_hyphen

  /** `s[:index] + '-' + s[index:]`; ValueError unless `0 <= index < len(s)`. */
  function AddHyphen(s: string, index: int): (r: Result<string>)
    ensures r.Err? <==> !(0 <= index < |s|)
    ensures r.Err? ==> r.error == ValueError
    ensures r.Ok? ==> |r.value| == |s| + 1 && r.value[index] == '-'
    ensures r.Ok? ==> r.value[..index] == s[..index] && r.value[index + 1..] == s[index..]
  {
    if index < 0 || index >= |s| then Err(ValueError)
    else Ok(s[..index] + "-" + s[index..])
  }

  /** Deleting the inserted hyphen gives the input back. */
  lemma AddHyphenRoundTrip(s: string, index: int)
    requires 0 <= index < |s|
    ensures var t := AddHyphen(s, index).value; t[..index] + t[index + 1..] == s
  {
    var t := AddHyphen(s, index).value;
    assert s == s[..index] + s[index..];
  }

  // ---------------------------------------------------------------------
  // preview_limit

  /** Text longer than `maxLength` is cut to `text[:maxLength]` and given "...". */
  function PreviewLimit(text: string, maxLength: int): (r: string)
    ensures |text| <= maxLength ==> r == text
    ensures |text| > maxLength ==> r == Take(text, maxLength) + "..."
    ensures 0 <= maxLength ==> |r| <= maxLength + 3 || r == text
  {
    if |text| > maxLength then Take(text, maxLength) + "..." else text
  }

  lemma PreviewLimitIdempotent(text: string, maxLength: int)
    requires 0 <= maxLength
    ensures PreviewLimit(PreviewLimit(text, maxLength), maxLength) == PreviewLimit(text, maxLength)
  {
    if |text| > maxLength {
      var r := text[..maxLength] + "...";
      assert r[..maxLength] == text[..maxLength];
    }
  }

  /** With a negative limit, Python's negative slice makes a second call cut again. */
  lemma PreviewLimitNegativeNotIdempotent()
    ensures PreviewLimit(PreviewLimit("abc", -1), -1) != PreviewLimit("abc", -1)
  {
    assert PreviewLimit("abc", -1) == "ab...";
    assert PreviewLimit("ab...", -1) == "ab.." + "...";
  }

  // ---------------------------------------------------------------------
  // wrap_text

  /** `"".join(ws)` */
  function Concat(ws: seq<string>): string {
    if ws == [] then "" else ws[0] + Concat(ws[1..])
  }

  lemma {:induction false} ConcatAppend(a: seq<string>, b: seq<string>)
    ensures Concat(a + b) == Concat(a) + Concat(b)
  {
    if a == [] {
      assert a + b == b;
    } else {
      assert (a + b)[0] == a[0] && (a + b)[1..] == a[1..] + b;
      ConcatAppend(a[1..], b);
    }
  }

  /** `text.replace('\n', ' ')` */
  function ReplaceNewlines(s: string): (r: string)
    ensures |r| == |s|
    ensures forall i :: 0 <= i < |s| ==> r[i] == (if s[i] == '\n' then ' ' else s[i])
  {
    if s == [] then [] else [if s[0] == '\n' then ' ' else s[0]] + ReplaceNewlines(s[1..])
  }

  lemma {:induction false} ReplaceNewlinesNoSpace(s: string)
    ensures NoSpace(ReplaceNewlines(s)) == NoSpace(s)
  {
    if s != [] {
      ReplaceNewlinesNoSpace(s[1..]);
      assert ReplaceNewlines(s)[1..] == ReplaceNewlines(s[1..]);
    }
  }

  /** Length of the leading run of non-whitespace characters. */
  function SpanLength(s: string): (n: nat)
    ensures n <= |s|
    ensures forall i :: 0 <= i < n ==> !IsSpace(s[i])
  {
    if s == [] || IsSpace(s[0]) then 0 else 1 + SpanLength(s[1..])
  }

  predicate IsWord(w: string) {
    w != [] && forall i :: 0 <= i < |w| ==> !IsSpace(w[i])
  }

  /** `s.split()`: the maximal runs of non-whitespace characters. */
  function Split(s: string): (ws: seq<string>)
    ensures forall w :: w in ws ==> IsWord(w)
    decreases |s|
  {
    if s == [] then []
    else if IsSpace(s[0]) then Split(s[1..])
    else
      var n := SpanLength(s);
      [s[..n]] + Split(s[n..])
  }

  /** Splitting loses only whitespace. */
  lemma {:induction false} SplitNoSpace(s: string)
    ensures Concat(Split(s)) == NoSpace(s)
    decreases |s|
  {
    if s != [] {
      if IsSpace(s[0]) {
        SplitNoSpace(s[1..]);
      } else {
        var n := SpanLength(s);
        SplitNoSpace(s[n..]);
        assert s == s[..n] + s[n..];
        NoSpaceConcat(s[..n], s[n..]);
        NoSpaceOfSpaceless(s[..n]);
      }
    }
  }

  predicate AllSpace(p: string) {
    forall i :: 0 <= i < |p| ==> IsSpace(p[i])
  }

  /** `gaps[0] + ws[0] + gaps[1] + ... + ws[k-1] + gaps[k]` */
  function Interleave(gaps: seq<string>, ws: seq<string>): string
    requires |gaps| == |ws| + 1
    decreases ws
  {
    if ws == [] then gaps[0] else gaps[0] + ws[0] + Interleave(gaps[1..], ws[1..])
  }

  /** `ws` are words, `gaps` are runs of whitespace, and the gaps between two
      words are not empty: the words are then the maximal non-whitespace runs. */
  predicate Separated(gaps: seq<string>, ws: seq<string>) {
    && |gaps| == |ws| + 1
    && (forall i :: 0 <= i < |gaps| ==> AllSpace(gaps[i]))
    && (forall i :: 0 < i < |ws| ==> gaps[i] != [])
    && (forall i :: 0 <= i < |ws| ==> IsWord(ws[i]))
  }

  /** The whitespace around and between the words of `s.split()`. */
  function Gaps(s: string): (gaps: seq<string>)
    ensures |gaps| == |Split(s)| + 1
    decreases |s|
  {
    if s == [] then [""]
    else if IsSpace(s[0]) then
      var g := Gaps(s[1..]);
      [[s[0]] + g[0]] + g[1..]
    else [""] + Gaps(s[SpanLength(s)..])
  }

  lemma {:induction false} SpanLengthMaximal(s: string)
    ensures SpanLength(s) < |s| ==> IsSpace(s[SpanLength(s)])
    decreases |s|
  {
    if s != [] && !IsSpace(s[0]) {
      SpanLengthMaximal(s[1..]);
    }
  }

  /** A run without whitespace followed by the end or by whitespace is the span. */
  lemma {:induction false} SpanLengthOfWord(w: string, t: string)
    requires forall i :: 0 <= i < |w| ==> !IsSpace(w[i])
    requires t == [] || IsSpace(t[0])
    ensures SpanLength(w + t) == |w|
    decreases |w|
  {
    if w != [] {
      assert (w + t)[1..] == w[1..] + t;
      SpanLengthOfWord(w[1..], t);
    } else {
      assert w + t == t;
    }
  }

  lemma InterleavePrepend(c: string, gaps: seq<string>, ws: seq<string>)
    requires |gaps| == |ws| + 1
    ensures Interleave([c + gaps[0]] + gaps[1..], ws) == c + Interleave(gaps, ws)
  {
    var g := [c + gaps[0]] + gaps[1..];
    assert g[1..] == gaps[1..];
  }

  /** A gap that starts a text with a word in it leaves the text starting with that word. */
  lemma InterleaveStart(gaps: seq<string>, ws: seq<string>)
    requires Separated(gaps, ws) && gaps[0] == [] && ws != []
    ensures Interleave(gaps, ws) == ws[0] + Interleave(gaps[1..], ws[1..])
    ensures Separated(gaps[1..], ws[1..])
  {
    assert gaps[0] + ws[0] == ws[0];
    assert forall i :: 0 < i < |ws[1..]| ==> gaps[1..][i] == gaps[i + 1];
  }

  /** What follows the first word is empty or starts with whitespace. */
  lemma AfterFirstWord(gaps: seq<string>, ws: seq<string>)
    requires Separated(gaps, ws)
    ensures var t := Interleave(gaps, ws); t == [] || IsSpace(t[0]) || (gaps[0] == [] && ws != [])
  {
    if ws != [] && gaps[0] != [] {
      assert Interleave(gaps, ws) == gaps[0] + (ws[0] + Interleave(gaps[1..], ws[1..]));
    }
  }

  /** The words of `s.split()` are exactly the words that, put into runs of
      whitespace with a non-empty run between any two of them, give `s`. */
  lemma SplitCharacterised(s: string, ws: seq<string>)
    ensures ws == Split(s) <==> exists gaps :: Separated(gaps, ws) && Interleave(gaps, ws) == s
  {
    SplitGaps(s);
    if exists gaps :: Separated(gaps, ws) && Interleave(gaps, ws) == s {
      var gaps :| Separated(gaps, ws) && Interleave(gaps, ws) == s;
      SplitUnique(s, gaps, ws);
    }
  }

  /** `s.split()` cuts `s` into maximal whitespace-free runs: putting the words
      back into their gaps gives `s`. */
  lemma {:induction false} SplitGaps(s: string)
    ensures Separated(Gaps(s), Split(s))
    ensures Interleave(Gaps(s), Split(s)) == s
    decreases |s|
  {
    if s != [] {
      if IsSpace(s[0]) {
        SplitGaps(s[1..]);
        GapsOfSpace(s);
      } else {
        SplitGaps(s[SpanLength(s)..]);
        GapsOfWord(s);
      }
    }
  }

  lemma GapsOfSpace(s: string)
    requires s != [] && IsSpace(s[0])
    requires Separated(Gaps(s[1..]), Split(s[1..]))
    requires Interleave(Gaps(s[1..]), Split(s[1..])) == s[1..]
    ensures Separated(Gaps(s), Split(s))
    ensures Interleave(Gaps(s), Split(s)) == s
  {
    assert [s[0]] + s[1..] == s;
    SpaceCase(s, [s[0]], s[1..], Gaps(s[1..]), Split(s[1..]), Gaps(s), Split(s));
  }

  /** Whitespace in front of a text joins its first gap. */
  lemma SpaceCase(s: string, c: string, rest: string, g: seq<string>, ws: seq<string>,
                  gaps: seq<string>, words: seq<string>)
    requires s == c + rest && AllSpace(c)
    requires Separated(g, ws) && Interleave(g, ws) == rest
    requires gaps == [c + g[0]] + g[1..] && words == ws
    ensures Separated(gaps, words) && Interleave(gaps, words) == s
  {
    InterleavePrepend(c, g, ws);
    assert AllSpace(c + g[0]);
    assert forall i :: 0 < i < |gaps| ==> gaps[i] == g[i];
  }

  lemma GapsOfWord(s: string)
    requires s != [] && !IsSpace(s[0])
    requires Separated(Gaps(s[SpanLength(s)..]), Split(s[SpanLength(s)..]))
    requires Interleave(Gaps(s[SpanLength(s)..]), Split(s[SpanLength(s)..])) == s[SpanLength(s)..]
    ensures Separated(Gaps(s), Split(s))
    ensures Interleave(Gaps(s), Split(s)) == s
  {
    var n := SpanLength(s);
    WordUnfold(s, n);
    WordCase(s, s[..n], s[n..], Gaps(s[n..]), Split(s[n..]), Gaps(s), Split(s));
  }

  lemma WordUnfold(s: string, n: nat)
    requires s != [] && !IsSpace(s[0]) && n == SpanLength(s)
    ensures Gaps(s) == [""] + Gaps(s[n..])
    ensures Split(s) == [s[..n]] + Split(s[n..])
    ensures IsWord(s[..n]) && s == s[..n] + s[n..]
    ensures s[n..] == [] || IsSpace(s[n..][0])
  {
    WordUnfoldGaps(s, n);
    WordUnfoldSplit(s, n);
    WordUnfoldSpan(s, n);
  }

  lemma WordUnfoldGaps(s: string, n: nat)
    requires s != [] && !IsSpace(s[0]) && n == SpanLength(s)
    ensures Gaps(s) == [""] + Gaps(s[n..])
  {
  }

  lemma WordUnfoldSplit(s: string, n: nat)
    requires s != [] && !IsSpace(s[0]) && n == SpanLength(s)
    ensures Split(s) == [s[..n]] + Split(s[n..])
  {
  }

  lemma WordUnfoldSpan(s: string, n: nat)
    requires s != [] && !IsSpace(s[0]) && n == SpanLength(s)
    ensures IsWord(s[..n]) && s == s[..n] + s[n..]
    ensures s[n..] == [] || IsSpace(s[n..][0])
  {
    SpanLengthMaximal(s);
  }

  /** A word followed by the end or by whitespace becomes the first word. */
  lemma WordCase(s: string, w: string, rest: string, g: seq<string>, ws: seq<string>,
                 gaps: seq<string>, words: seq<string>)
    requires s == w + rest && IsWord(w) && (rest == [] || IsSpace(rest[0]))
    requires Separated(g, ws) && Interleave(g, ws) == rest
    requires gaps == [""] + g && words == [w] + ws
    ensures Separated(gaps, words) && Interleave(gaps, words) == s
  {
    FirstGapOfRest(g, ws);
    SeparatedCons(w, g, ws);
  }

  /** A word in front of a text that starts with whitespace. */
  lemma SeparatedCons(w: string, g: seq<string>, ws: seq<string>)
    requires IsWord(w) && Separated(g, ws)
    requires ws != [] ==> g[0] != []
    ensures Separated([""] + g, [w] + ws)
    ensures Interleave([""] + g, [w] + ws) == w + Interleave(g, ws)
  {
    var g', ws' := [""] + g, [w] + ws;
    assert g'[1..] == g && ws'[1..] == ws;
    assert forall i :: 0 < i < |g'| ==> g'[i] == g[i - 1];
    assert forall i :: 0 < i < |ws'| ==> ws'[i] == ws[i - 1];
    assert "" + w == w;
  }

  /** A text whose first gap is empty starts with its first word. */
  lemma FirstGapOfRest(g: seq<string>, ws: seq<string>)
    requires Separated(g, ws)
    ensures ws != [] && g[0] == [] ==>
      Interleave(g, ws) != [] && !IsSpace(Interleave(g, ws)[0])
  {
    if ws != [] && g[0] == [] {
      InterleaveStart(g, ws);
      assert Interleave(g, ws)[0] == ws[0][0];
    }
  }

  /** Any cutting of `s` into words separated by whitespace is `s.split()`. */
  lemma {:induction false} SplitUnique(s: string, gaps: seq<string>, ws: seq<string>)
    requires Separated(gaps, ws) && Interleave(gaps, ws) == s
    ensures ws == Split(s)
    decreases |s|
  {
    if gaps[0] != [] {
      var g := [gaps[0][1..]] + gaps[1..];
      assert gaps[0] == [gaps[0][0]] + gaps[0][1..];
      InterleavePrepend([gaps[0][0]], [gaps[0][1..]] + gaps[1..], ws);
      assert g[1..] == gaps[1..];
      assert Separated(g, ws) by {
        assert forall i :: 0 < i < |g| ==> g[i] == gaps[i];
      }
      assert s == [gaps[0][0]] + Interleave(g, ws);
      SplitUnique(s[1..], g, ws);
    } else if ws != [] {
      InterleaveStart(gaps, ws);
      var t := Interleave(gaps[1..], ws[1..]);
      AfterFirstWord(gaps[1..], ws[1..]);
      assert t == [] || IsSpace(t[0]) by {
        if ws[1..] != [] {
          assert gaps[1..][0] == gaps[1];
        }
      }
      SpanLengthOfWord(ws[0], t);
      assert s[..|ws[0]|] == ws[0] && s[|ws[0]|..] == t;
      SplitUnique(t, gaps[1..], ws[1..]);
      assert ws == [ws[0]] + ws[1..];
    }
  }

  /** The inner `while len(word) > width` loop: the width-sized pieces cut off
      the front of a long word and the remainder that stays. */
  function Chunks(word: string, width: int): (p: (seq<string>, string))
    requires width >= 1
    ensures forall l :: l in p.0 ==> |l| == width
    ensures |p.1| <= width
    ensures Concat(p.0) + p.1 == word
    decreases |word|
  {
    if |word| > width then
      var rest := Chunks(word[width..], width);
      assert word == word[..width] + word[width..];
      ([word[..width]] + rest.0, rest.1)
    else ([], word)
  }

  lemma {:induction false} ChunksOfWord(word: string, width: int)
    requires width >= 1 && IsWord(word)
    ensures IsWord(Chunks(word, width).1)
    ensures forall l :: l in Chunks(word, width).0 ==> IsWord(l)
    decreases |word|
  {
    if |word| > width {
      ChunksOfWord(word[width..], width);
    }
  }

  /** `lines` and `current_line` between two words of the outer loop. */
  datatype WrapState = WrapState(lines: seq<string>, current: string)

  /** One iteration of the outer `for word in words` loop, as written. */
  function Step(st: WrapState, word: string, width: int): WrapState
    requires width >= 1
  {
    var p := Chunks(word, width);
    if |st.current| + |p.1| + 1 <= width then
      WrapState(st.lines + p.0, st.current + (if st.current != "" then " " else "") + p.1)
    else
      WrapState(st.lines + p.0 + [st.current], p.1)
  }

  function Run(ws: seq<string>, width: int): WrapState
    requires width >= 1 || ws == []
  {
    if ws == [] then WrapState([], "")
    else Step(Run(ws[..|ws| - 1], width), ws[|ws| - 1], width)
  }

  /** `if current_line: lines.append(current_line)` */
  function Finish(st: WrapState): seq<string> {
    if st.current != "" then st.lines + [st.current] else st.lines
  }

  /** The lines `wrap_text` returns. A width below 1 never terminates on a
      text that has a word; on a text without words the result is empty. */
  function WrapLines(text: string, width: int): seq<string>
    requires width >= 1 || Split(ReplaceNewlines(text)) == []
  {
    Finish(Run(Split(ReplaceNewlines(text)), width))
  }

  /** The text the state holds, in the order of its lines. */
  function Text(st: WrapState): string {
    Concat(st.lines) + st.current
  }

  predicate Bounded(st: WrapState, width: int) {
    (forall l :: l in st.lines ==> |l| <= width) && |st.current| <= width
  }

  lemma StepBounded(st: WrapState, word: string, width: int)
    requires width >= 1 && Bounded(st, width)
    ensures Bounded(Step(st, word, width), width)
  {
  }

  lemma {:induction false} RunBounded(ws: seq<string>, width: int)
    requires width >= 1
    ensures Bounded(Run(ws, width), width)
  {
    if ws != [] {
      RunBounded(ws[..|ws| - 1], width);
      StepBounded(Run(ws[..|ws| - 1], width), ws[|ws| - 1], width);
    }
  }

  /** Every line `wrap_text` produces fits the width. */
  lemma WrapLinesBounded(text: string, width: int)
    requires width >= 1
    ensures forall l :: l in WrapLines(text, width) ==> |l| <= width
  {
    RunBounded(Split(ReplaceNewlines(text)), width);
  }

  /** The text of a step: what was there, then the pieces of a long word, then
      the pending line, then the separator and the remainder of the word. */
  lemma StepText(st: WrapState, word: string, width: int)
    requires width >= 1
    ensures var p := Chunks(word, width);
      Text(Step(st, word, width)) ==
        Concat(st.lines) + Concat(p.0) + st.current
        + (if |st.current| + |p.1| + 1 <= width && st.current != "" then " " else "") + p.1
  {
    var p := Chunks(word, width);
    var a, pc, c, w := Concat(st.lines), Concat(p.0), st.current, p.1;
    var sep := if |c| + |w| + 1 <= width && c != "" then " " else "";
    ConcatAppend(st.lines, p.0);
    var next := Step(st, word, width);
    assert Text(next) == Concat(next.lines) + next.current;
    if |c| + |w| + 1 <= width {
      assert next.lines == st.lines + p.0;
      assert next.current == c + sep + w;
      assert Concat(next.lines) == a + pc;
      Assoc3(a + pc, c + sep, w);
      Assoc3(a + pc, c, sep);
    } else {
      assert next.lines == (st.lines + p.0) + [c];
      assert next.current == w;
      ConcatAppend(st.lines + p.0, [c]);
      ConcatSingleton(c);
      assert Concat(next.lines) == a + pc + c;
      assert sep == "" && a + pc + c + sep == a + pc + c;
    }
  }

  lemma ConcatSingleton(s: string)
    ensures Concat([s]) == s
  {
    assert [s][1..] == [];
  }

  lemma Assoc3(a: string, b: string, c: string)
    ensures a + (b + c) == a + b + c
  {
  }

  lemma NoSpaceConcat5(a: string, b: string, c: string, d: string, e: string)
    ensures NoSpace(a + b + c + d + e) == NoSpace(a) + NoSpace(b) + NoSpace(c) + NoSpace(d) + NoSpace(e)
  {
    NoSpaceConcat(a + b + c + d, e);
    NoSpaceConcat(a + b + c, d);
    NoSpaceConcat(a + b, c);
    NoSpaceConcat(a, b);
  }

  lemma StepChars(st: WrapState, word: string, width: int)
    requires width >= 1 && NoSpace(word) == word
    ensures multiset(NoSpace(Text(Step(st, word, width)))) == multiset(NoSpace(Text(st))) + multiset(word)
  {
    var p := Chunks(word, width);
    var a, pc, c, w := Concat(st.lines), Concat(p.0), st.current, p.1;
    var sep := if |c| + |w| + 1 <= width && c != "" then " " else "";
    StepText(st, word, width);
    assert Text(Step(st, word, width)) == a + pc + c + sep + w;
    assert NoSpace(sep) == [];
    NoSpaceParts(pc, w);
    SpacelessOutside(a, pc, c, sep, w);
    NoSpaceConcat(a, c);
    var na, nc := NoSpace(a), NoSpace(c);
    assert NoSpace(Text(Step(st, word, width))) == na + pc + nc + w;
    assert NoSpace(Text(st)) == na + nc;
    assert pc + w == word;
    MultisetRegroup(na, pc, nc, w);
  }

  lemma MultisetRegroup(a: string, b: string, c: string, d: string)
    ensures multiset(a + b + c + d) == multiset(a + c) + multiset(b + d)
  {
    assert multiset(a + b + c + d) == multiset(a) + multiset(b) + multiset(c) + multiset(d);
  }

  lemma {:induction false} RunChars(ws: seq<string>, width: int)
    requires width >= 1 && forall w :: w in ws ==> IsWord(w)
    ensures multiset(NoSpace(Text(Run(ws, width)))) == multiset(Concat(ws))
  {
    if ws != [] {
      var init, last := ws[..|ws| - 1], ws[|ws| - 1];
      assert forall w :: w in init ==> w in ws;
      RunChars(init, width);
      var before := Run(init, width);
      assert last in ws;
      NoSpaceOfSpaceless(last);
      StepChars(before, last, width);
      ConcatSnoc(ws);
      calc {
        multiset(NoSpace(Text(Run(ws, width))));
        multiset(NoSpace(Text(Step(before, last, width))));
        multiset(NoSpace(Text(before))) + multiset(last);
        multiset(Concat(init)) + multiset(last);
        multiset(Concat(ws));
      }
    }
  }

  lemma FinishText(st: WrapState)
    ensures Concat(Finish(st)) == Text(st)
  {
    if st.current != "" {
      ConcatAppend(st.lines, [st.current]);
      assert Concat([st.current]) == st.current;
    }
  }

  /** No non-whitespace character is lost or invented: the characters of the
      lines are those of the text, up to order (see WrapReorders). */
  lemma WrapLinesChars(text: string, width: int)
    requires width >= 1
    ensures multiset(NoSpace(Concat(WrapLines(text, width)))) == multiset(NoSpace(text))
  {
    var ws := Split(ReplaceNewlines(text));
    RunChars(ws, width);
    FinishText(Run(ws, width));
    SplitNoSpace(ReplaceNewlines(text));
    ReplaceNewlinesNoSpace(text);
  }

  /** The text "abc" is the single word "abc". */
  lemma SplitAbc()
    ensures ReplaceNewlines("abc") == "abc" && Split("abc") == ["abc"]
  {
    var t := "abc";
    assert ReplaceNewlines(t[2..]) == t[2..];
    assert ReplaceNewlines(t[1..]) == t[1..];
    assert SpanLength(t) == 3 by {
      assert SpanLength(t[1..]) == 2 by {
        assert SpanLength(t[2..]) == 1;
      }
    }
    assert t[..3] == t && t[3..] == "";
  }

  lemma RunAbc()
    ensures Run(["abc"], 3) == WrapState([""], "abc")
  {
    var ws := ["abc"];
    assert ws[..0] == [];
    assert Chunks("abc", 3) == ([], "abc");
  }

  /** A word exactly as wide as the line, met with an empty current line,
      first emits an empty line. */
  lemma WrapEmitsEmptyLine()
    ensures WrapLines("abc", 3) == ["", "abc"]
  {
    SplitAbc();
    RunAbc();
  }

  lemma {:induction false} ReplaceNewlinesNone(s: string)
    requires forall i :: 0 <= i < |s| ==> s[i] != '\n'
    ensures ReplaceNewlines(s) == s
  {
    if s != [] {
      ReplaceNewlinesNone(s[1..]);
      assert s == [s[0]] + s[1..];
    }
  }

  lemma SplitSample()
    ensures Split("ab cdefg") == ["ab", "cdefg"]
  {
    var t := "ab cdefg";
    var u := t[3..];
    assert u == "cdefg";
    SpanCdefg();
    assert u[..5] == u && u[5..] == "";
    assert Split(u) == [u];
    SplitAfterAb();
    assert t[..2] == "ab";
  }

  lemma SpanCdefg()
    ensures SpanLength("cdefg") == 5
  {
    var u := "cdefg";
    assert u[1..] == "defg" && u[1..][1..] == "efg" && u[1..][1..][1..] == "fg";
    assert SpanLength("g") == 1;
    assert SpanLength("fg") == 2;
    assert SpanLength("efg") == 3;
    assert SpanLength("defg") == 4;
  }

  lemma SplitAfterAb()
    ensures SpanLength("ab cdefg") == 2
    ensures Split("ab cdefg"[2..]) == Split("cdefg")
  {
    var t := "ab cdefg";
    assert t[1..][1..] == t[2..];
    assert SpanLength(t[2..]) == 0;
    assert t[2..][1..] == "cdefg";
  }

  lemma RunSample()
    ensures Run(["ab", "cdefg"], 3) == WrapState(["cde", "ab"], "fg")
  {
    var u := "cdefg";
    assert u[3..] == "fg" && u[..3] == "cde";
    assert Chunks("fg", 3) == ([], "fg");
    assert [u[..3]] + [] == ["cde"];
    assert Chunks(u, 3) == (["cde"], "fg");
    assert Chunks("ab", 3) == ([], "ab");
    var ws := ["ab", u];
    assert ws[..1] == ["ab"] && ws[..1][..0] == [];
    assert Run(["ab"], 3) == WrapState([], "ab");
  }

  /** The pieces of a long word are emitted before the pending line, so the
      characters come out of order. */
  lemma WordsSample()
    ensures Split(ReplaceNewlines("ab cdefg")) == ["ab", "cdefg"]
  {
    SampleHasNoNewline();
    SplitSample();
  }

  lemma SampleHasNoNewline()
    ensures ReplaceNewlines("ab cdefg") == "ab cdefg"
  {
    var t := "ab cdefg";
    assert forall i :: 0 <= i < |t| ==> t[i] != '\n';
    ReplaceNewlinesNone(t);
  }

  lemma WrapOfSampleWords(t: string)
    requires Split(ReplaceNewlines(t)) == ["ab", "cdefg"]
    ensures WrapLines(t, 3) == ["cde", "ab", "fg"]
  {
    RunSample();
    assert Finish(WrapState(["cde", "ab"], "fg")) == ["cde", "ab"] + ["fg"];
  }

  lemma WrapReorders()
    ensures WrapLines("ab cdefg", 3) == ["cde", "ab", "fg"]
  {
    WordsSample();
    WrapOfSampleWords("ab cdefg");
  }

  /** `wrap_text(text, width)` */
  method WrapText(text: string, width: int) returns (lines: seq<string>)
    requires width >= 1 || Split(ReplaceNewlines(text)) == []
    ensures lines == WrapLines(text, width)
    ensures forall l :: l in lines ==> |l| <= width
    ensures multiset(NoSpace(Concat(lines))) == multiset(NoSpace(text))
  {
    var words := Split(ReplaceNewlines(text));
    lines := [];
    var current := "";
    for k := 0 to |words|
      invariant WrapState(lines, current) == Run(words[..k], width)
    {
      var word := words[k];
      ghost var before := lines;
      ghost var p := Chunks(word, width);
      while |word| > width
        invariant before + p.0 == lines + Chunks(word, width).0
        invariant p.1 == Chunks(word, width).1
        decreases |word|
      {
        ChunksCut(lines, word, width);
        lines := lines + [word[..width]];
        word := word[width..];
      }
      assert lines == before + p.0 && word == p.1;
      if |current| + |word| + 1 <= width {
        current := current + (if current != "" then " " else "") + word;
      } else {
        lines := lines + [current];
        current := word;
      }
      assert WrapState(lines, current) == Step(Run(words[..k], width), words[k], width);
      RunSnoc(words, k, width);
    }
    assert words[..|words|] == words;
    if current != "" {
      lines := lines + [current];
    }
    WrapLinesFacts(text, width);
  }

  /** For a width below 1 the inner loop, as written, never ends: after one
      `word = word[width:]` the word is one that the next cut leaves as it
      is, and it is still longer than the width. */
  lemma ChunkLoopStuck(word: string, width: int)
    requires width <= 0 && word != []
    ensures var w := Drop(word, width); |w| > width && |w| >= 1 && Drop(w, width) == w
  {
  }

  /** `wrap_text` as evidently intended for every width: a width below 1 is
      rejected instead of looping. */
  function WrapTextChecked(text: string, width: int): (r: Result<seq<string>>)
    ensures r.Err? <==> width < 1
    ensures r.Err? ==> r.error == ValueError
    ensures r.Ok? ==> r.value == WrapLines(text, width)
    ensures r.Ok? ==> forall l :: l in r.value ==> |l| <= width
    ensures r.Ok? ==> multiset(NoSpace(Concat(r.value))) == multiset(NoSpace(text))
  {
    if width < 1 then Err(ValueError)
    else
      WrapLinesFacts(text, width);
      Ok(WrapLines(text, width))
  }

  lemma ChunksCut(lines: seq<string>, word: string, width: int)
    requires 1 <= width < |word|
    ensures lines + Chunks(word, width).0 == (lines + [word[..width]]) + Chunks(word[width..], width).0
    ensures Chunks(word, width).1 == Chunks(word[width..], width).1
  {
    var rest := Chunks(word[width..], width);
    assert Chunks(word, width).0 == [word[..width]] + rest.0;
  }

  lemma RunSnoc(ws: seq<string>, k: int, width: int)
    requires 0 <= k < |ws| && width >= 1
    ensures Run(ws[..k + 1], width) == Step(Run(ws[..k], width), ws[k], width)
  {
    assert ws[..k + 1][..k] == ws[..k];
  }

  lemma WrapLinesFacts(text: string, width: int)
    requires width >= 1 || Split(ReplaceNewlines(text)) == []
    ensures forall l :: l in WrapLines(text, width) ==> |l| <= width
    ensures multiset(NoSpace(Concat(WrapLines(text, width)))) == multiset(NoSpace(text))
  {
    if width >= 1 {
      WrapLinesBounded(text, width);
      WrapLinesChars(text, width);
    } else {
      SplitNoSpace(ReplaceNewlines(text));
      ReplaceNewlinesNoSpace(text);
    }
  }

  // ---------------------------------------------------------------------
  // wrap_text as evidently intended: the pending line is flushed before the
  // pieces of a long word are emitted.

  function StepFixed(st: WrapState, word: string, width: int): WrapState
    requires width >= 1
  {
    if |word| > width && st.current != "" then
      Step(WrapState(st.lines + [st.current], ""), word, width)
    else
      Step(st, word, width)
  }

  function RunFixed(ws: seq<string>, width: int): WrapState
    requires width >= 1 || ws == []
  {
    if ws == [] then WrapState([], "")
    else StepFixed(RunFixed(ws[..|ws| - 1], width), ws[|ws| - 1], width)
  }

  function WrapLinesFixed(text: string, width: int): seq<string>
    requires width >= 1 || Split(ReplaceNewlines(text)) == []
  {
    Finish(RunFixed(Split(ReplaceNewlines(text)), width))
  }

  lemma {:induction false} RunFixedBounded(ws: seq<string>, width: int)
    requires width >= 1
    ensures Bounded(RunFixed(ws, width), width)
  {
    if ws != [] {
      var before := RunFixed(ws[..|ws| - 1], width);
      RunFixedBounded(ws[..|ws| - 1], width);
      StepBounded(before, ws[|ws| - 1], width);
      StepBounded(WrapState(before.lines + [before.current], ""), ws[|ws| - 1], width);
    }
  }

  /** The corrected wrap still keeps every line within the width. */
  lemma WrapFixedBounded(text: string, width: int)
    requires width >= 1
    ensures forall l :: l in WrapLinesFixed(text, width) ==> |l| <= width
  {
    RunFixedBounded(Split(ReplaceNewlines(text)), width);
  }

  lemma Regroup(a: string, b: string, c: string, d: string)
    requires b == "" || c == ""
    ensures a + b + c + d == (a + c) + (b + d)
  {
    if b == "" {
      assert a + b == a;
    } else {
      assert b + c == b;
    }
  }

  lemma SpacelessOutside(a: string, pc: string, c: string, sep: string, w: string)
    requires NoSpace(sep) == [] && NoSpace(pc) == pc && NoSpace(w) == w
    ensures NoSpace(a + pc + c + sep + w) == NoSpace(a) + pc + NoSpace(c) + w
  {
    NoSpaceAppendSpaceless(a + pc + c + sep, w);
    NoSpaceAppendSpaces(a + pc + c, sep);
    NoSpaceConcat(a + pc, c);
    NoSpaceAppendSpaceless(a, pc);
  }

  lemma NoSpaceAppendSpaceless(x: string, w: string)
    requires NoSpace(w) == w
    ensures NoSpace(x + w) == NoSpace(x) + w
  {
    NoSpaceConcat(x, w);
  }

  lemma NoSpaceAppendSpaces(x: string, sep: string)
    requires NoSpace(sep) == []
    ensures NoSpace(x + sep) == NoSpace(x)
  {
    NoSpaceConcat(x, sep);
    assert NoSpace(x) + [] == NoSpace(x);
  }

  lemma InOrderChars(a: string, pc: string, c: string, sep: string, w: string)
    requires NoSpace(sep) == [] && NoSpace(pc) == pc && NoSpace(w) == w
    requires pc == "" || c == ""
    ensures NoSpace(a + pc + c + sep + w) == NoSpace(a + c) + (pc + w)
  {
    SpacelessOutside(a, pc, c, sep, w);
    NoSpaceConcat(a, c);
    NoSpaceEmpty();
    Regroup(NoSpace(a), pc, NoSpace(c), w);
  }

  /** A step that never puts a long word's pieces in front of a pending line
      appends the word's characters in order. */
  lemma StepInOrder(st: WrapState, word: string, width: int)
    requires width >= 1 && NoSpace(word) == word
    requires Chunks(word, width).0 == [] || st.current == ""
    ensures NoSpace(Text(Step(st, word, width))) == NoSpace(Text(st)) + word
  {
    var p := Chunks(word, width);
    var a, pc, c, w := Concat(st.lines), Concat(p.0), st.current, p.1;
    var sep := if |c| + |w| + 1 <= width && c != "" then " " else "";
    StepText(st, word, width);
    assert Text(Step(st, word, width)) == a + pc + c + sep + w;
    assert NoSpace(sep) == [];
    assert p.0 == [] ==> pc == "";
    NoSpaceParts(pc, w);
    InOrderChars(a, pc, c, sep, w);
  }

  lemma StepFixedText(st: WrapState, word: string, width: int)
    requires width >= 1 && NoSpace(word) == word
    ensures NoSpace(Text(StepFixed(st, word, width))) == NoSpace(Text(st)) + word
  {
    if |word| > width && st.current != "" {
      var flushed := WrapState(st.lines + [st.current], "");
      ConcatAppend(st.lines, [st.current]);
      assert Concat([st.current]) == st.current by {
        assert [st.current][1..] == [];
      }
      assert Text(flushed) == Text(st);
      StepInOrder(flushed, word, width);
    } else {
      assert |word| <= width ==> Chunks(word, width).0 == [];
      StepInOrder(st, word, width);
    }
  }

  lemma {:induction false} RunFixedText(ws: seq<string>, width: int)
    requires width >= 1 && forall w :: w in ws ==> IsWord(w)
    ensures NoSpace(Text(RunFixed(ws, width))) == Concat(ws)
  {
    if ws != [] {
      var init := ws[..|ws| - 1];
      var last := ws[|ws| - 1];
      assert forall w :: w in init ==> w in ws;
      RunFixedText(init, width);
      var before := RunFixed(init, width);
      assert last in ws;
      NoSpaceOfSpaceless(last);
      StepFixedText(before, last, width);
      ConcatSnoc(ws);
      calc {
        NoSpace(Text(RunFixed(ws, width)));
        NoSpace(Text(StepFixed(before, last, width)));
        NoSpace(Text(before)) + last;
        Concat(init) + last;
        Concat(ws);
      }
    }
  }

  lemma ConcatSnoc(ws: seq<string>)
    requires ws != []
    ensures Concat(ws) == Concat(ws[..|ws| - 1]) + ws[|ws| - 1]
  {
    var init, last := ws[..|ws| - 1], ws[|ws| - 1];
    assert ws == init + [last];
    ConcatAppend(init, [last]);
    ConcatSingleton(last);
  }

  /** With the pending line flushed first, the lines hold the text's
      non-whitespace characters in their original order. */
  lemma WrapFixedPreservesOrder(text: string, width: int)
    requires width >= 1
    ensures NoSpace(Concat(WrapLinesFixed(text, width))) == NoSpace(text)
  {
    var ws := Split(ReplaceNewlines(text));
    RunFixedText(ws, width);
    FinishText(RunFixed(ws, width));
    SplitNoSpace(ReplaceNewlines(text));
    ReplaceNewlinesNoSpace(text);
  }
}
