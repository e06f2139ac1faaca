/** RAG/text_manage.py: cleaning scraped FAQ text, splitting it into
    question/answer pairs and tagging every pair with the same metadata.
    The file reads and writes and the clock of `process_faq` are parameters. */
module TextManage {
  import opened PyBase
  import opened PyStr

  // ---------------------------------------------------------------------------
  // clean_text, first step: re.sub(r"<.*?>", "", text)
  // ---------------------------------------------------------------------------

  /** Where the tag opened by a '<' just before `t` closes: the index of the
      first '>' of the current line (`.` does not match '\n'), if any. */
  function CloseIndex(t: string): (r: Option<nat>)
    ensures r.Some? ==> r.value < |t| && t[r.value] == '>'
                        && '>' !in t[..r.value] && '\n' !in t[..r.value]
    decreases |t|
  {
    if t == [] then None
    else if t[0] == '>' then Some(0)
    else if t[0] == '\n' then None
    else match CloseIndex(t[1..])
      case Some(j) => assert t[..j + 1] == [t[0]] + t[1..][..j]; Some(j + 1)
      case None => None
  }

  /** Delete, left to right, every `<...>` span that lies within one line,
      each closed by the first '>' after its '<' (the non-greedy `.*?`). */
  function RemoveTags(s: string): string
    decreases |s|
  {
    if s == [] then []
    else if s[0] == '<' && CloseIndex(s[1..]).Some? then
      RemoveTags(s[CloseIndex(s[1..]).value + 2..])
    else [s[0]] + RemoveTags(s[1..])
  }

  /** No '<' of `s` is closed by a '>' later on its line: nothing for `<.*?>` to match. */
  predicate NoTag(s: string)
    decreases |s|
  {
    s == [] || ((s[0] == '<' ==> CloseIndex(s[1..]).None?) && NoTag(s[1..]))
  }

  lemma {:induction false} UnclosedRemoveTags(t: string)
    requires CloseIndex(t).None?
    ensures CloseIndex(RemoveTags(t)).None?
    decreases |t|
  {
    if t != [] && t[0] != '\n' {
      UnclosedRemoveTags(t[1..]);
      assert ([t[0]] + RemoveTags(t[1..]))[1..] == RemoveTags(t[1..]);
    }
  }

  /** After tag removal nothing is left for the pattern to match. */
  lemma {:induction false} RemoveTagsNoTag(s: string)
    ensures NoTag(RemoveTags(s))
    decreases |s|
  {
    if s == [] {
    } else if s[0] == '<' && CloseIndex(s[1..]).Some? {
      RemoveTagsNoTag(s[CloseIndex(s[1..]).value + 2..]);
    } else {
      RemoveTagsNoTag(s[1..]);
      if s[0] == '<' {
        UnclosedRemoveTags(s[1..]);
      }
      assert ([s[0]] + RemoveTags(s[1..]))[1..] == RemoveTags(s[1..]);
    }
  }

  /** Text with no tag in it is left alone. */
  lemma {:induction false} RemoveTagsNoTagFixed(s: string)
    requires NoTag(s)
    ensures RemoveTags(s) == s
    decreases |s|
  {
    if s != [] {
      RemoveTagsNoTagFixed(s[1..]);
    }
  }

  /** Text before the first '<' is kept, the span up to the first '>' after it
      (on the same line) is deleted, and scanning resumes behind that '>'. */
  lemma RemoveTagsSpan(x: string, m: string, b: string)
    requires '<' !in x && '>' !in m && '\n' !in m
    ensures RemoveTags(x + "<" + m + ">" + b) == x + RemoveTags(b)
  {
    PlainPrefix(x, "<" + m + ">" + b);
    assert x + "<" + m + ">" + b == x + ("<" + m + ">" + b);
    var t := "<" + m + ">" + b;
    assert t[1..] == m + ">" + b;
    CloseAfter(m, b);
    assert t[|m| + 2..] == b;
  }

  lemma {:induction false} CloseAfter(m: string, b: string)
    requires '>' !in m && '\n' !in m
    ensures CloseIndex(m + ">" + b) == Some(|m|)
    decreases |m|
  {
    if m != [] {
      assert (m + ">" + b)[1..] == m[1..] + ">" + b;
      assert m[0] in m;
      CloseAfter(m[1..], b);
    }
  }

  lemma {:induction false} PlainPrefix(x: string, b: string)
    requires '<' !in x
    ensures RemoveTags(x + b) == x + RemoveTags(b)
    decreases |x|
  {
    if x != [] {
      assert x[0] in x;
      assert (x + b)[1..] == x[1..] + b;
      PlainPrefix(x[1..], b);
      assert [x[0]] + (x[1..] + RemoveTags(b)) == x + RemoveTags(b);
    } else {
      assert x + b == b;
    }
  }

  // NoTag is kept by slicing and by joining lines.

  lemma {:induction false} UnclosedPrefix(t: string, k: nat)
    requires k <= |t| && CloseIndex(t).None?
    ensures CloseIndex(t[..k]).None?
    decreases |t|
  {
    if k > 0 && t[0] != '\n' {
      assert t[..k][1..] == t[1..][..k - 1];
      UnclosedPrefix(t[1..], k - 1);
    }
  }

  lemma {:induction false} NoTagPrefix(s: string, k: nat)
    requires k <= |s| && NoTag(s)
    ensures NoTag(s[..k])
    decreases |s|
  {
    if k > 0 {
      assert s[..k][1..] == s[1..][..k - 1];
      NoTagPrefix(s[1..], k - 1);
      if s[0] == '<' {
        UnclosedPrefix(s[1..], k - 1);
      }
    }
  }

  lemma {:induction false} NoTagSuffix(s: string, k: nat)
    requires k <= |s| && NoTag(s)
    ensures NoTag(s[k..])
    decreases k
  {
    if k > 0 {
      assert s[k..] == s[1..][k - 1..];
      NoTagSuffix(s[1..], k - 1);
    }
  }

  lemma {:induction false} NoTagSlice(s: string, i: nat, j: nat)
    requires i <= j <= |s| && NoTag(s)
    ensures NoTag(s[i..j])
  {
    NoTagSuffix(s, i);
    NoTagPrefix(s[i..], j - i);
    assert s[i..][..j - i] == s[i..j];
  }

  lemma {:induction false} UnclosedNewline(t: string, y: string)
    requires CloseIndex(t).None?
    ensures CloseIndex(t + "\n" + y).None?
    decreases |t|
  {
    if t != [] && t[0] != '\n' {
      assert (t + "\n" + y)[1..] == t[1..] + "\n" + y;
      UnclosedNewline(t[1..], y);
    }
  }

  lemma {:induction false} NoTagNewline(x: string, y: string)
    requires NoTag(x) && NoTag(y)
    ensures NoTag(x + "\n" + y)
    decreases |x|
  {
    if x == [] {
      assert (x + "\n" + y)[1..] == y;
    } else {
      assert (x + "\n" + y)[1..] == x[1..] + "\n" + y;
      NoTagNewline(x[1..], y);
      if x[0] == '<' {
        UnclosedNewline(x[1..], y);
      }
    }
  }

  lemma {:induction false} NoTagJoin(lines: seq<string>)
    requires forall i :: 0 <= i < |lines| ==> NoTag(lines[i])
    ensures NoTag(Join(lines, "\n"))
    decreases |lines|
  {
    if |lines| > 1 {
      NoTagJoin(lines[1..]);
      NoTagNewline(lines[0], Join(lines[1..], "\n"));
    }
  }

  lemma {:induction false} NoTagSplitPieces(s: string)
    requires NoTag(s)
    ensures forall i :: 0 <= i < |Split(s, "\n")| ==> NoTag(Split(s, "\n")[i])
    decreases |s|
  {
    if |s| >= 1 {
      NoTagSuffix(s, 1);
      NoTagSplitPieces(s[1..]);
      if s[..1] != "\n" {
        var rest := Split(s[1..], "\n");
        SplitFirstIsPrefix(s[1..], "\n");
        assert [s[0]] + rest[0] == s[..1 + |rest[0]|];
        NoTagPrefix(s, 1 + |rest[0]|);
      }
    }
  }

  lemma NoTagSplitLines(s: string)
    requires NoTag(s)
    ensures forall i :: 0 <= i < |SplitLines(s)| ==> NoTag(SplitLines(s)[i])
  {
    if s != [] {
      if s[|s| - 1] == '\n' {
        NoTagPrefix(s, |s| - 1);
        NoTagSplitPieces(s[..|s| - 1]);
      } else {
        NoTagSplitPieces(s);
      }
    }
  }

  lemma NewlineFreeSplitLines(s: string)
    ensures forall i :: 0 <= i < |SplitLines(s)| ==> '\n' !in SplitLines(s)[i]
  {
    if s != [] {
      if s[|s| - 1] == '\n' {
        SplitCharPieces(s[..|s| - 1], '\n');
      } else {
        SplitCharPieces(s, '\n');
      }
    }
  }

  // ---------------------------------------------------------------------------
  // clean_text, second step:
  //   "\n".join(line.strip() for line in text.splitlines() if line.strip())
  // ---------------------------------------------------------------------------

  /** The stripped lines that are not blank, in order. */
  function NonBlankStripped(lines: seq<string>): (r: seq<string>)
    ensures |r| <= |lines|
    ensures forall i :: 0 <= i < |r| ==> r[i] != "" && Trimmed(r[i])
    decreases |lines|
  {
    if lines == [] then []
    else
      var s := Strip(lines[0]);
      (if s == "" then [] else [s]) + NonBlankStripped(lines[1..])
  }

  /** Stripping keeps "no tag" and "no line break" from the input lines. */
  lemma {:induction false} NonBlankStrippedKeeps(lines: seq<string>)
    ensures (forall i :: 0 <= i < |lines| ==> NoTag(lines[i])) ==>
              forall i :: 0 <= i < |NonBlankStripped(lines)| ==> NoTag(NonBlankStripped(lines)[i])
    ensures (forall i :: 0 <= i < |lines| ==> '\n' !in lines[i]) ==>
              forall i :: 0 <= i < |NonBlankStripped(lines)| ==> '\n' !in NonBlankStripped(lines)[i]
    decreases |lines|
  {
    if lines != [] {
      NonBlankStrippedKeeps(lines[1..]);
      var l := lines[0];
      StripSlice(l);
      var i := |l| - |LStrip(l)|;
      var s := Strip(l);
      assert s == l[i..i + |s|];
      if NoTag(l) {
        NoTagSlice(l, i, i + |s|);
      }
      if '\n' !in l {
        assert forall c :: c in l[i..i + |s|] ==> c in l;
      }
    }
  }

  /** Stripped non-blank lines are their own result. */
  lemma {:induction false} NonBlankStrippedFixed(lines: seq<string>)
    requires forall i :: 0 <= i < |lines| ==> lines[i] != "" && Trimmed(lines[i])
    ensures NonBlankStripped(lines) == lines
    decreases |lines|
  {
    if lines != [] {
      StripTrimmed(lines[0]);
      NonBlankStrippedFixed(lines[1..]);
    }
  }

  /** The lines `clean_text` keeps: non-empty, stripped, without tags or line breaks. */
  function CleanLines(text: string): (lines: seq<string>)
    ensures forall i :: 0 <= i < |lines| ==>
              lines[i] != "" && Trimmed(lines[i]) && '\n' !in lines[i] && NoTag(lines[i])
  {
    var untagged := RemoveTags(text);
    RemoveTagsNoTag(text);
    NoTagSplitLines(untagged);
    NewlineFreeSplitLines(untagged);
    NonBlankStrippedKeeps(SplitLines(untagged));
    NonBlankStripped(SplitLines(untagged))
  }

  /** `clean_text(text)`. */
  function CleanText(text: string): string {
    Join(CleanLines(text), "\n")
  }

  /** The lines of the cleaned text are exactly the kept lines: none is empty,
      none has leading or trailing whitespace. */
  lemma CleanTextLines(text: string)
    ensures SplitLines(CleanText(text)) == CleanLines(text)
    ensures forall i :: 0 <= i < |SplitLines(CleanText(text))| ==>
              SplitLines(CleanText(text))[i] != "" && Trimmed(SplitLines(CleanText(text))[i])
  {
    SplitLinesJoin(CleanLines(text));
  }

  /** No `<...>` span within one line survives cleaning. */
  lemma CleanTextNoTag(text: string)
    ensures NoTag(CleanText(text))
  {
    NoTagJoin(CleanLines(text));
  }

  /** Cleaning cleaned text changes nothing. */
  lemma CleanTextIdempotent(text: string)
    ensures CleanText(CleanText(text)) == CleanText(text)
  {
    var c := CleanText(text);
    CleanTextNoTag(text);
    RemoveTagsNoTagFixed(c);
    CleanTextLines(text);
    NonBlankStrippedFixed(CleanLines(text));
  }

  // ---------------------------------------------------------------------------
  // split_faq: re.split(r"(?:^|\n)Q[:：]", text) and the loop over the parts
  // ---------------------------------------------------------------------------

  predicate IsColon(c: char) {
    c == ':' || c == '：'
  }

  /** Length of a match of `(?:^|\n)Q[:：]` starting at `i`, or 0: `^` only at
      the start of the text (no MULTILINE flag), else a '\n' in front of `Q`. */
  function MarkerAt(s: string, i: nat): (n: nat)
    requires i <= |s|
    ensures n == 0 || n == 2 || n == 3
    ensures n == 2 ==> i == 0 && |s| >= 2 && s[0] == 'Q' && IsColon(s[1])
    ensures n == 3 ==> i + 3 <= |s| && s[i] == '\n' && s[i + 1] == 'Q' && IsColon(s[i + 2])
    ensures n == 0 ==> !(i == 0 && |s| >= 2 && s[0] == 'Q' && IsColon(s[1]))
    ensures n == 0 ==> !(i + 3 <= |s| && s[i] == '\n' && s[i + 1] == 'Q' && IsColon(s[i + 2]))
  {
    if i == 0 && |s| >= 2 && s[0] == 'Q' && IsColon(s[1]) then 2
    else if i + 3 <= |s| && s[i] == '\n' && s[i + 1] == 'Q' && IsColon(s[i + 2]) then 3
    else 0
  }

  /** The parts of `s` from `start` on, scanning for markers from `i`. */
  function SplitFrom(s: string, start: nat, i: nat): (parts: seq<string>)
    requires start <= i <= |s|
    ensures |parts| >= 1
    decreases |s| - i
  {
    if i == |s| then [s[start..]]
    else if MarkerAt(s, i) > 0 then [s[start..i]] + SplitFrom(s, i + MarkerAt(s, i), i + MarkerAt(s, i))
    else SplitFrom(s, start, i + 1)
  }

  /** `re.split(r"(?:^|\n)Q[:：]", text)`. */
  function SplitOnMarkers(text: string): seq<string> {
    SplitFrom(text, 0, 0)
  }

  /** The shape of a text `re.split` cuts away: `Q:`/`Q：` (matched only at
      the start of the text, see SplitOnMarkersInterleave), or
      `\nQ:`/`\nQ：`. */
  predicate IsMarkerText(m: string) {
    (|m| == 2 && m[0] == 'Q' && IsColon(m[1]))
    || (|m| == 3 && m[0] == '\n' && m[1] == 'Q' && IsColon(m[2]))
  }

  /** The markers matched while scanning `s` from `i`, in order. */
  function MarkersFrom(s: string, i: nat): (ms: seq<string>)
    requires i <= |s|
    ensures forall k :: 0 <= k < |ms| ==> IsMarkerText(ms[k])
    decreases |s| - i
  {
    if i == |s| then []
    else if MarkerAt(s, i) > 0 then [s[i..i + MarkerAt(s, i)]] + MarkersFrom(s, i + MarkerAt(s, i))
    else MarkersFrom(s, i + 1)
  }

  /** `parts[0] + marks[0] + parts[1] + ... + parts[k]`. */
  function Interleave(parts: seq<string>, marks: seq<string>): string
    requires |parts| == |marks| + 1
    decreases |marks|
  {
    if marks == [] then parts[0] else parts[0] + marks[0] + Interleave(parts[1..], marks[1..])
  }

  lemma {:induction false} SplitFromInterleave(s: string, start: nat, i: nat)
    requires start <= i <= |s|
    ensures |SplitFrom(s, start, i)| == |MarkersFrom(s, i)| + 1
    ensures Interleave(SplitFrom(s, start, i), MarkersFrom(s, i)) == s[start..]
    decreases |s| - i
  {
    if i == |s| {
      assert SplitFrom(s, start, i) == [s[start..]] && MarkersFrom(s, i) == [];
    } else if MarkerAt(s, i) > 0 {
      var m := MarkerAt(s, i);
      var parts, marks := SplitFrom(s, i + m, i + m), MarkersFrom(s, i + m);
      SplitFromInterleave(s, i + m, i + m);
      assert SplitFrom(s, start, i) == [s[start..i]] + parts;
      assert MarkersFrom(s, i) == [s[i..i + m]] + marks;
      InterleaveAtMarker(s, start, i, i + m, parts, marks);
    } else {
      SplitFromInterleave(s, start, i + 1);
    }
  }

  lemma InterleaveAtMarker(s: string, start: nat, i: nat, j: nat, parts: seq<string>, marks: seq<string>)
    requires start <= i <= j <= |s|
    requires |parts| == |marks| + 1 && Interleave(parts, marks) == s[j..]
    ensures Interleave([s[start..i]] + parts, [s[i..j]] + marks) == s[start..]
  {
    InterleaveCons(s[start..i], s[i..j], parts, marks);
    SuffixSplit(s, start, i);
    SuffixSplit(s, i, j);
    assert s[start..] == s[start..i] + (s[i..j] + s[j..]);
  }

  lemma SuffixSplit(s: string, a: nat, b: nat)
    requires a <= b <= |s|
    ensures s[a..] == s[a..b] + s[b..]
  {
  }

  lemma InterleaveCons(p: string, m: string, parts: seq<string>, marks: seq<string>)
    requires |parts| == |marks| + 1
    ensures Interleave([p] + parts, [m] + marks) == p + m + Interleave(parts, marks)
  {
    assert ([p] + parts)[1..] == parts && ([m] + marks)[1..] == marks;
  }

  /** Past the start of the text only `\nQ:`/`\nQ：` markers match. */
  lemma {:induction false} MarkersFromLater(s: string, i: nat)
    requires 0 < i <= |s|
    ensures forall k :: 0 <= k < |MarkersFrom(s, i)| ==> |MarkersFrom(s, i)[k]| == 3
    decreases |s| - i
  {
    if i < |s| {
      if MarkerAt(s, i) > 0 {
        MarkersFromLater(s, i + MarkerAt(s, i));
      } else {
        MarkersFromLater(s, i + 1);
      }
    }
  }

  /** The first part runs from `start` up to the first marker. */
  lemma {:induction false} SplitFromFirstPrefix(s: string, start: nat, i: nat)
    requires start <= i <= |s|
    ensures StartsWith(s[start..], SplitFrom(s, start, i)[0])
    decreases |s| - i
  {
    if i == |s| {
    } else if MarkerAt(s, i) > 0 {
      assert SplitFrom(s, start, i)[0] == s[start..i];
      assert s[start..][..i - start] == s[start..i];
    } else {
      SplitFromFirstPrefix(s, start, i + 1);
    }
  }

  /** The parts are exactly the text between the markers: putting the
      matched markers back between them gives the text again. A two-character
      `Q:` marker is only ever the first one, cut from the very start of the
      text, and the first part never begins with `Q:`/`Q：` itself. With
      SplitOnMarkersCutsEveryMarker (no part holds `\nQ:`/`\nQ：`) this says
      the text is cut at markers only, and at every one of them. */
  lemma SplitOnMarkersInterleave(text: string)
    ensures |SplitOnMarkers(text)| == |MarkersFrom(text, 0)| + 1
    ensures Interleave(SplitOnMarkers(text), MarkersFrom(text, 0)) == text
    ensures forall k :: 0 <= k < |MarkersFrom(text, 0)| ==> IsMarkerText(MarkersFrom(text, 0)[k])
    ensures forall k :: 0 <= k < |MarkersFrom(text, 0)| && |MarkersFrom(text, 0)[k]| == 2 ==>
              k == 0 && SplitOnMarkers(text)[0] == ""
    ensures var p := SplitOnMarkers(text)[0]; !(|p| >= 2 && p[0] == 'Q' && IsColon(p[1]))
  {
    SplitFromInterleave(text, 0, 0);
    if text == [] {
      assert MarkersFrom(text, 0) == [];
    } else if MarkerAt(text, 0) > 0 {
      var m := MarkerAt(text, 0);
      MarkersFromLater(text, m);
      assert MarkersFrom(text, 0) == [text[0..m]] + MarkersFrom(text, m);
      assert SplitOnMarkers(text) == [text[0..0]] + SplitFrom(text, m, m);
    } else {
      assert MarkersFrom(text, 0) == MarkersFrom(text, 1);
      MarkersFromLater(text, 1);
      SplitFromFirstPrefix(text, 0, 0);
      assert text[0..] == text;
    }
  }

  /** A `Q:` in the middle of a line is no marker: only the `\nQ:` is cut. */
  lemma SplitMidLineQ()
    ensures SplitOnMarkers("\nQ:aQ:b") == ["", "aQ:b"]
  {
    var s := "\nQ:aQ:b";
    assert MarkerAt(s, 0) == 3;
    assert MarkerAt(s, 3) == 0 && MarkerAt(s, 4) == 0 && MarkerAt(s, 5) == 0 && MarkerAt(s, 6) == 0;
    assert SplitFrom(s, 3, 7) == [s[3..]];
    assert SplitFrom(s, 3, 3) == SplitFrom(s, 3, 7);
    assert SplitOnMarkers(s) == [s[0..0]] + SplitFrom(s, 3, 3);
  }

  /** A line break followed by `Q:` or `Q：` at position `j` of `p`. */
  predicate MarkerInside(p: string, j: int) {
    0 <= j && j + 3 <= |p| && p[j] == '\n' && p[j + 1] == 'Q' && IsColon(p[j + 2])
  }

  lemma NoMarkerInSlice(s: string, a: nat, b: nat, j: int)
    requires a <= b <= |s|
    requires forall j :: a <= j < b ==> MarkerAt(s, j) == 0
    ensures !MarkerInside(s[a..b], j)
  {
    if 0 <= j && j + 3 <= b - a {
      assert s[a..b][j] == s[a + j] && s[a..b][j + 1] == s[a + j + 1] && s[a..b][j + 2] == s[a + j + 2];
      assert MarkerAt(s, a + j) == 0;
    }
  }

  lemma {:induction false} SplitFromNoMarker(s: string, start: nat, i: nat)
    requires start <= i <= |s|
    requires forall j :: start <= j < i ==> MarkerAt(s, j) == 0
    ensures forall k, j :: 0 <= k < |SplitFrom(s, start, i)| ==> !MarkerInside(SplitFrom(s, start, i)[k], j)
    decreases |s| - i
  {
    var parts := SplitFrom(s, start, i);
    if i == |s| {
      forall j ensures !MarkerInside(s[start..], j) {
        NoMarkerInSlice(s, start, |s|, j);
      }
    } else if MarkerAt(s, i) > 0 {
      var m := MarkerAt(s, i);
      SplitFromNoMarker(s, i + m, i + m);
      forall j ensures !MarkerInside(s[start..i], j) {
        NoMarkerInSlice(s, start, i, j);
      }
      assert parts[0] == s[start..i];
      assert parts[1..] == SplitFrom(s, i + m, i + m);
    } else {
      SplitFromNoMarker(s, start, i + 1);
    }
  }

  /** The text is cut at every marker: no part still holds a line break
      followed by `Q:` or `Q：`. */
  lemma SplitOnMarkersCutsEveryMarker(text: string)
    ensures forall k, j :: 0 <= k < |SplitOnMarkers(text)| ==> !MarkerInside(SplitOnMarkers(text)[k], j)
  {
    SplitFromNoMarker(text, 0, 0);
  }

  /** A text that opens with `Q:` or `Q：` has an empty first part, as `re.split` gives. */
  lemma SplitOnMarkersLeadingMarker(text: string)
    requires |text| >= 2 && text[0] == 'Q' && IsColon(text[1])
    ensures SplitOnMarkers(text)[0] == ""
  {
  }

  /** Text without any marker is one part, the whole text. */
  lemma {:induction false} SplitFromNoMarkerAhead(s: string, start: nat, i: nat)
    requires start <= i <= |s|
    requires forall j :: i <= j <= |s| ==> MarkerAt(s, j) == 0
    ensures SplitFrom(s, start, i) == [s[start..]]
    decreases |s| - i
  {
    if i < |s| {
      SplitFromNoMarkerAhead(s, start, i + 1);
    }
  }

  lemma SplitOnMarkersNoMarker(text: string)
    requires !(|text| >= 2 && text[0] == 'Q' && IsColon(text[1]))
    requires forall j :: !MarkerInside(text, j)
    ensures SplitOnMarkers(text) == [text]
  {
    forall j | 0 <= j <= |text| ensures MarkerAt(text, j) == 0 {
      assert !MarkerInside(text, j);
    }
    SplitFromNoMarkerAhead(text, 0, 0);
  }

  datatype QaPair = QaPair(question: string, answer: string)

  /** The pair made of a stripped, non-blank part: its first line is the
      question, the remaining lines joined with '\n' are the answer. */
  function PairOf(part: string): (p: QaPair)
    requires part != [] && Trimmed(part)
    ensures p.question != "" && '\n' !in p.question
    ensures '\n' in part ==> part == p.question + "\n" + p.answer
    ensures '\n' !in part ==> p.question == part && p.answer == ""
  {
    var lines := Split(part, "\n");
    assert SplitLines(part) == lines;
    SplitCharFirst(part, '\n');
    SplitJoinsBack(part, "\n");
    assert |lines| == 1 ==> Join(lines, "\n") == lines[0];
    QaPair(lines[0], if |lines| > 1 then Join(lines[1..], "\n") else "")
  }

  lemma {:induction false} NonBlankStrippedAppend(a: seq<string>, b: seq<string>)
    ensures NonBlankStripped(a + b) == NonBlankStripped(a) + NonBlankStripped(b)
    decreases |a|
  {
    if a == [] {
      assert a + b == b;
    } else {
      assert (a + b)[1..] == a[1..] + b;
      NonBlankStrippedAppend(a[1..], b);
    }
  }

  /** Nothing is kept exactly when every line is blank. */
  lemma {:induction false} NonBlankStrippedEmpty(lines: seq<string>)
    ensures NonBlankStripped(lines) == [] <==> forall k :: 0 <= k < |lines| ==> Strip(lines[k]) == ""
    decreases |lines|
  {
    if lines != [] {
      NonBlankStrippedEmpty(lines[1..]);
      assert forall k :: 1 <= k < |lines| ==> lines[1..][k - 1] == lines[k];
    }
  }

  /** `parts[k]` is the first part that is not blank. */
  predicate FirstNonBlank(parts: seq<string>, k: int) {
    0 <= k < |parts| && Strip(parts[k]) != ""
    && forall j :: 0 <= j < k ==> Strip(parts[j]) == ""
  }

  /** The first line kept is the first non-blank one, stripped. */
  lemma {:induction false} NonBlankStrippedFirst(lines: seq<string>, k: int)
    requires FirstNonBlank(lines, k)
    ensures NonBlankStripped(lines) != [] && NonBlankStripped(lines)[0] == Strip(lines[k])
    decreases k
  {
    if k > 0 {
      assert FirstNonBlank(lines[1..], k - 1) by {
        forall j | 0 <= j < k - 1 ensures Strip(lines[1..][j]) == "" {
          assert lines[1..][j] == lines[j + 1];
        }
      }
      NonBlankStrippedFirst(lines[1..], k - 1);
    }
  }

  /** With no blank line, every line is kept, stripped, in place. */
  lemma {:induction false} NonBlankStrippedAll(lines: seq<string>)
    requires forall k :: 0 <= k < |lines| ==> Strip(lines[k]) != ""
    ensures |NonBlankStripped(lines)| == |lines|
    ensures forall k :: 0 <= k < |lines| ==> NonBlankStripped(lines)[k] == Strip(lines[k])
    decreases |lines|
  {
    if lines != [] {
      assert forall k :: 1 <= k < |lines| ==> lines[1..][k - 1] == lines[k];
      NonBlankStrippedAll(lines[1..]);
    }
  }

  /** What `split_faq` would collect if it did not return early: one pair per
      non-blank part, in order. */
  function PairsOf(parts: seq<string>): (pairs: seq<QaPair>)
    ensures |pairs| == |NonBlankStripped(parts)|
  {
    var kept := NonBlankStripped(parts);
    seq(|kept|, i requires 0 <= i < |kept| => PairOf(kept[i]))
  }

  lemma {:induction false} PairsOfSnoc(parts: seq<string>, p: string)
    ensures PairsOf(parts + [p]) == PairsOf(parts) + (if Strip(p) == "" then [] else [PairOf(Strip(p))])
  {
    NonBlankStrippedAppend(parts, [p]);
    assert NonBlankStripped([p]) == (if Strip(p) == "" then [] else [Strip(p)]);
  }

  /** No pairs exactly when every part is blank. */
  lemma PairsOfEmpty(parts: seq<string>)
    ensures PairsOf(parts) == [] <==> forall k :: 0 <= k < |parts| ==> Strip(parts[k]) == ""
  {
    NonBlankStrippedEmpty(parts);
  }

  /** The first pair comes from the first non-blank part. */
  lemma PairsOfFirst(parts: seq<string>, k: int)
    requires FirstNonBlank(parts, k)
    ensures PairsOf(parts) != [] && PairsOf(parts)[0] == PairOf(Strip(parts[k]))
  {
    NonBlankStrippedFirst(parts, k);
  }

  /** With no blank part, there is exactly one pair per part, in order: N
      questions, each followed by a non-blank answer block, give N pairs. */
  lemma PairsOfAllNonBlank(parts: seq<string>)
    requires forall k :: 0 <= k < |parts| ==> Strip(parts[k]) != ""
    ensures |PairsOf(parts)| == |parts|
    ensures forall k :: 0 <= k < |parts| ==> PairsOf(parts)[k] == PairOf(Strip(parts[k]))
  {
    NonBlankStrippedAll(parts);
  }

  /** What `split_faq(text)` as written returns, in terms of the pairs the
      text holds: `None` when there is none, else the first pair alone. */
  predicate SplitFaqReturns(text: string, r: Option<seq<QaPair>>) {
    (r.None? <==> PairsOf(SplitOnMarkers(text)) == [])
    && (r.Some? ==> PairsOf(SplitOnMarkers(text)) != [] && r.value == [PairsOf(SplitOnMarkers(text))[0]])
  }

  /** `split_faq(text)` as written: the `return` sits inside the loop, so the
      result is the pair of the first non-blank part alone, or `None` when
      every part is blank. */
  method SplitFaq(text: string) returns (r: Option<seq<QaPair>>)
    ensures var parts := SplitOnMarkers(text);
            r.None? <==> forall k :: 0 <= k < |parts| ==> Strip(parts[k]) == ""
    ensures var parts := SplitOnMarkers(text);
            r.Some? ==> exists k :: FirstNonBlank(parts, k) && r.value == [PairOf(Strip(parts[k]))]
    ensures SplitFaqReturns(text, r)
  {
    var parts := SplitOnMarkers(text);
    PairsOfEmpty(parts);
    var qaPairs: seq<QaPair> := [];
    for k := 0 to |parts|
      invariant qaPairs == []
      invariant forall j :: 0 <= j < k ==> Strip(parts[j]) == ""
    {
      var part := Strip(parts[k]);
      if part == "" {
        continue;
      }
      qaPairs := qaPairs + [PairOf(part)];
      assert FirstNonBlank(parts, k);
      PairsOfFirst(parts, k);
      return Some(qaPairs);
    }
    return None;
  }

  /** The loop of `split_faq` without the early return: every non-blank part
      gives a pair, in order. */
  method SplitFaqAll(text: string) returns (qaPairs: seq<QaPair>)
    ensures qaPairs == PairsOf(SplitOnMarkers(text))
  {
    var parts := SplitOnMarkers(text);
    qaPairs := [];
    for k := 0 to |parts|
      invariant qaPairs == PairsOf(parts[..k])
    {
      assert parts[..k + 1] == parts[..k] + [parts[k]];
      PairsOfSnoc(parts[..k], parts[k]);
      var part := Strip(parts[k]);
      if part == "" {
        continue;
      }
      qaPairs := qaPairs + [PairOf(part)];
    }
    assert parts[..|parts|] == parts;
  }

  /** `re.split` on a text with two questions gives the empty text before
      the first marker and the two questions. */
  lemma SplitTwoQuestions()
    ensures SplitOnMarkers("Q:a\nQ:b") == ["", "a", "b"]
  {
    var s := "Q:a\nQ:b";
    assert MarkerAt(s, 0) == 2;
    assert MarkerAt(s, 2) == 0;
    assert MarkerAt(s, 3) == 3;
    assert MarkerAt(s, 6) == 0;
    assert s[2..3] == "a" && s[6..] == "b" && s[0..0] == "";
    assert SplitFrom(s, 6, 7) == ["b"];
    assert SplitFrom(s, 6, 6) == ["b"];
    assert SplitFrom(s, 2, 3) == ["a", "b"];
    assert SplitFrom(s, 2, 2) == ["a", "b"];
  }

  /** Two questions in the text, and yet `split_faq` as written returns one:
      the text holds two pairs, and the result is the first alone. */
  lemma SplitFaqKeepsOnlyFirstPair(r: Option<seq<QaPair>>)
    requires SplitFaqReturns("Q:a\nQ:b", r)
    ensures PairsOf(SplitOnMarkers("Q:a\nQ:b")) == [QaPair("a", ""), QaPair("b", "")]
    ensures r == Some([QaPair("a", "")])
  {
    SplitTwoQuestions();
    NonBlankStrippedTwo();
    var kept := NonBlankStripped(["", "a", "b"]);
    assert '\n' !in kept[0] && '\n' !in kept[1];
    assert PairsOf(["", "a", "b"])[0] == PairOf(kept[0]);
    assert PairsOf(["", "a", "b"])[1] == PairOf(kept[1]);
  }

  lemma NonBlankStrippedTwo()
    ensures NonBlankStripped(["", "a", "b"]) == ["a", "b"]
  {
    var parts := ["", "a", "b"];
    assert Strip("") == "";
    assert Strip("a") == "a" && Strip("b") == "b";
    assert parts[1..] == ["a", "b"] && parts[1..][1..] == ["b"] && parts[1..][1..][1..] == [];
    assert NonBlankStripped(["b"]) == ["b"];
    assert NonBlankStripped(["a", "b"]) == ["a", "b"];
  }

  // ---------------------------------------------------------------------------
  // process_faq: the record-building loop
  // ---------------------------------------------------------------------------

  datatype Metadata = Metadata(source: string, category: string, crawlTime: string)

  datatype FaqRecord = FaqRecord(question: string, answer: string, metadata: Metadata)

  /** The loop of `process_faq`: one record per pair, in order, all with the
      same metadata. */
  method AttachMetadata(qaPairs: seq<QaPair>, sourceUrl: string, category: string, now: string)
    returns (processed: seq<FaqRecord>)
    ensures |processed| == |qaPairs|
    ensures forall i :: 0 <= i < |qaPairs| ==>
              processed[i] == FaqRecord(qaPairs[i].question, qaPairs[i].answer,
                                        Metadata(sourceUrl, category, now))
  {
    processed := [];
    for i := 0 to |qaPairs|
      invariant |processed| == i
      invariant forall j :: 0 <= j < i ==>
                  processed[j] == FaqRecord(qaPairs[j].question, qaPairs[j].answer,
                                            Metadata(sourceUrl, category, now))
    {
      var qa := qaPairs[i];
      processed := processed + [FaqRecord(qa.question, qa.answer, Metadata(sourceUrl, category, now))];
    }
  }

  /** `process_faq` as written, with the file contents and the UTC timestamp
      as inputs and the records as output: `split_faq` gives at most one pair,
      and iterating over its `None` raises `TypeError`. */
  method ProcessFaq(rawText: string, sourceUrl: string, category: string, now: string)
    returns (r: Result<seq<FaqRecord>>)
    ensures var pairs := PairsOf(SplitOnMarkers(CleanText(rawText)));
            (r.Err? <==> pairs == [])
            && (r.Err? ==> r.error.TypeError?)
            && (r.Ok? ==> r.value == [FaqRecord(pairs[0].question, pairs[0].answer,
                                                Metadata(sourceUrl, category, now))])
  {
    var cleaned := CleanText(rawText);
    var qaPairs := SplitFaq(cleaned);
    if qaPairs.None? {
      return Err(TypeError("'NoneType' object is not iterable"));
    }
    var processed := AttachMetadata(qaPairs.value, sourceUrl, category, now);
    return Ok(processed);
  }

  /** `process_faq` over every pair: one record per non-blank part of the
      cleaned text, in order, each with the same metadata. */
  method ProcessFaqAll(rawText: string, sourceUrl: string, category: string, now: string)
    returns (processed: seq<FaqRecord>)
    ensures var pairs := PairsOf(SplitOnMarkers(CleanText(rawText)));
            |processed| == |pairs|
            && forall i :: 0 <= i < |pairs| ==>
                 processed[i] == FaqRecord(pairs[i].question, pairs[i].answer,
                                           Metadata(sourceUrl, category, now))
  {
    var cleaned := CleanText(rawText);
    var qaPairs := SplitFaqAll(cleaned);
    processed := AttachMetadata(qaPairs, sourceUrl, category, now);
  }
}
