/** The handful of Python `str` built-ins the scripts rely on, on `seq<char>`.

    Fixed modelling choices:
    - whitespace (what `strip` removes) is ' ', '\t', '\n' and '\r';
    - a line break (what `splitlines` splits on) is '\n' only;
    - `lower` maps the ASCII letters A-Z and leaves every other character alone. */
module PyStr {

  predicate IsSpace(c: char) {
    c == ' ' || c == '\t' || c == '\n' || c == '\r'
  }

  predicate AllSpace(s: string) {
    forall i :: 0 <= i < |s| ==> IsSpace(s[i])
  }

  /** Neither end of `s` is whitespace: what `strip` guarantees. */
  predicate Trimmed(s: string) {
    s == [] || (!IsSpace(s[0]) && !IsSpace(s[|s| - 1]))
  }

  /** `s.lstrip()`; LStripSlice says which suffix of `s` remains. */
  function LStrip(s: string): (r: string)
    ensures r == [] || !IsSpace(r[0])
    decreases |s|
  {
    if s != [] && IsSpace(s[0]) then LStrip(s[1..]) else s
  }

  /** `s.rstrip()`; RStripSlice says which prefix of `s` remains. */
  function RStrip(s: string): (r: string)
    ensures r == [] || !IsSpace(r[|r| - 1])
    decreases |s|
  {
    if s != [] && IsSpace(s[|s| - 1]) then RStrip(s[..|s| - 1]) else s
  }

  /** `s.strip()`; StripSlice says which slice of `s` remains. */
  function Strip(s: string): (r: string)
    ensures Trimmed(r)
  {
    var l := LStrip(s);
    var r := RStrip(l);
    assert r != [] && l != [] ==> r[0] == l[0] by {
      if r != [] && l != [] { RStripSlice(l); }
    }
    r
  }

  lemma {:induction false} LStripSlice(s: string)
    ensures |LStrip(s)| <= |s| && LStrip(s) == s[|s| - |LStrip(s)|..]
    ensures AllSpace(s[..|s| - |LStrip(s)|])
    decreases |s|
  {
    if s != [] && IsSpace(s[0]) {
      LStripSlice(s[1..]);
      var n := |s| - |LStrip(s)|;
      assert s[1..][..n - 1] == s[1..n];
      assert s[1..][n - 1..] == s[n..];
    }
  }

  lemma {:induction false} RStripSlice(s: string)
    ensures |RStrip(s)| <= |s| && RStrip(s) == s[..|RStrip(s)|]
    ensures AllSpace(s[|RStrip(s)|..])
    decreases |s|
  {
    if s != [] && IsSpace(s[|s| - 1]) {
      RStripSlice(s[..|s| - 1]);
      var n := |RStrip(s)|;
      assert s[..|s| - 1][..n] == s[..n];
      assert s[..|s| - 1][n..] == s[n..|s| - 1];
    }
  }

  lemma AllSpaceConcat(a: string, b: string)
    requires AllSpace(a) && AllSpace(b)
    ensures AllSpace(a + b)
  {
  }

  /** `strip` keeps the slice `s[i..i + |r|]` and removes only whitespace around it. */
  lemma {:induction false} StripSlice(s: string)
    ensures var l := LStrip(s); var r := Strip(s); var i := |s| - |l|;
            0 <= i <= i + |r| <= |s| && r == s[i..i + |r|]
            && AllSpace(s[..i]) && AllSpace(s[i + |r|..])
  {
    var l := LStrip(s);
    var r := RStrip(l);
    LStripSlice(s);
    RStripSlice(l);
    var i := |s| - |l|;
    assert r == Strip(s);
    assert s[i..] == l;
    assert r == l[..|r|];
    assert r == s[i..i + |r|];
    assert s[i + |r|..] == l[|r|..];
    assert AllSpace(l[|r|..]);
  }

  /** `s.strip()` is empty exactly when `s` is all whitespace. */
  lemma StripBlank(s: string)
    ensures Strip(s) == [] <==> AllSpace(s)
  {
    StripSlice(s);
    var i := |s| - |LStrip(s)|;
    if Strip(s) == [] {
      assert s == s[..i] + s[i..];
      AllSpaceConcat(s[..i], s[i..]);
    } else {
      assert !IsSpace(s[i]);
    }
  }

  lemma StripTrimmed(s: string)
    requires Trimmed(s)
    ensures Strip(s) == s
  {
  }

  lemma {:induction false} LStripPadded(p: string, x: string)
    requires AllSpace(p)
    requires x == [] || !IsSpace(x[0])
    ensures LStrip(p + x) == x
    decreases |p|
  {
    if p != [] {
      assert (p + x)[1..] == p[1..] + x;
      LStripPadded(p[1..], x);
    }
  }

  lemma {:induction false} RStripPadded(x: string, q: string)
    requires AllSpace(q)
    requires x == [] || !IsSpace(x[|x| - 1])
    ensures RStrip(x + q) == x
    decreases |q|
  {
    if q != [] {
      assert (x + q)[..|x + q| - 1] == x + q[..|q| - 1];
      RStripPadded(x, q[..|q| - 1]);
    } else {
      assert x + q == x;
    }
  }

  /** Stripping removes exactly the whitespace padding around a trimmed core. */
  lemma StripPadded(p: string, x: string, q: string)
    requires AllSpace(p) && AllSpace(q) && Trimmed(x)
    ensures Strip(p + x + q) == x
  {
    if x == [] {
      assert p + x + q == p + q;
      AllSpaceConcat(p, q);
      StripBlank(p + q);
    } else {
      assert p + x + q == p + (x + q);
      LStripPadded(p, x + q);
      RStripPadded(x, q);
    }
  }

  /** `s.startswith(p)`. */
  predicate StartsWith(s: string, p: string) {
    |p| <= |s| && s[..|p|] == p
  }

  /** `s.endswith(p)`. */
  predicate EndsWith(s: string, p: string) {
    |p| <= |s| && s[|s| - |p|..] == p
  }

  /** `t in s` for strings: `t` occurs in `s` as a contiguous substring. */
  predicate Contains(s: string, t: string)
    decreases |s|
  {
    StartsWith(s, t) || (s != [] && Contains(s[1..], t))
  }

  lemma {:induction false} ContainsAt(s: string, t: string, i: nat)
    requires i + |t| <= |s| && s[i..i + |t|] == t
    ensures Contains(s, t)
    decreases i
  {
    if i > 0 {
      assert s[1..][i - 1..i - 1 + |t|] == s[i..i + |t|];
      ContainsAt(s[1..], t, i - 1);
    }
  }

  /** Text around a string that contains `t` does not hide it. */
  lemma {:induction false} ContainsExtend(a: string, x: string, b: string, t: string)
    requires Contains(x, t)
    ensures Contains(a + x + b, t)
    decreases |x|
  {
    if StartsWith(x, t) {
      assert (a + x + b)[|a|..|a| + |t|] == t;
      ContainsAt(a + x + b, t, |a|);
    } else {
      assert a + x + b == (a + [x[0]]) + x[1..] + b;
      ContainsExtend(a + [x[0]], x[1..], b, t);
    }
  }

  lemma {:induction false} ContainsTrans(s: string, x: string, t: string)
    requires Contains(s, x) && Contains(x, t)
    ensures Contains(s, t)
    decreases |s|
  {
    if StartsWith(s, x) {
      assert s == [] + x + s[|x|..];
      ContainsExtend([], x, s[|x|..], t);
    } else {
      ContainsTrans(s[1..], x, t);
    }
  }

  lemma ContainsSelf(t: string)
    ensures Contains(t, t)
  {
    assert StartsWith(t, t);
  }

  /** `"sep".join(parts)` contains every one of the parts. */
  lemma {:induction false} JoinContainsPart(parts: seq<string>, sep: string, i: nat)
    requires i < |parts|
    ensures Contains(Join(parts, sep), parts[i])
    decreases |parts|
  {
    var s := Join(parts, sep);
    if i == 0 {
      if |parts| > 1 {
        assert s == parts[0] + (sep + Join(parts[1..], sep));
      }
      assert s[..|parts[0]|] == parts[0];
      assert StartsWith(s, parts[0]);
    } else {
      JoinContainsPart(parts[1..], sep, i - 1);
      assert s == (parts[0] + sep) + Join(parts[1..], sep);
      assert s == (parts[0] + sep) + Join(parts[1..], sep) + [];
      ContainsExtend(parts[0] + sep, Join(parts[1..], sep), [], parts[i]);
    }
  }

  /** A string in which the first character of `t` never occurs does not contain `t`. */
  lemma {:induction false} NotContainsFirstChar(s: string, t: string)
    requires t != [] && t[0] !in s
    ensures !Contains(s, t)
    decreases |s|
  {
    if s != [] {
      assert s[0] != t[0];
      assert s[1..] <= s[1..];
      assert forall c :: c in s[1..] ==> c in s;
      NotContainsFirstChar(s[1..], t);
    }
  }

  /** `sep.join(parts)`. */
  function Join(parts: seq<string>, sep: string): string
    decreases |parts|
  {
    if |parts| == 0 then ""
    else if |parts| == 1 then parts[0]
    else parts[0] + sep + Join(parts[1..], sep)
  }

  /** `s.split(sep)` for a non-empty separator: the text between the
      occurrences of `sep`, found left to right without overlap. */
  function Split(s: string, sep: string): (parts: seq<string>)
    requires sep != []
    ensures |parts| >= 1
    decreases |s|
  {
    if |s| < |sep| then [s]
    else if s[..|sep|] == sep then [""] + Split(s[|sep|..], sep)
    else
      var rest := Split(s[1..], sep);
      [[s[0]] + rest[0]] + rest[1..]
  }

  lemma JoinConsHead(a: string, b: string, rest: seq<string>, sep: string)
    ensures Join([a + b] + rest, sep) == a + Join([b] + rest, sep)
  {
    if rest != [] {
      assert ([a + b] + rest)[1..] == rest;
      assert ([b] + rest)[1..] == rest;
    }
  }

  /** Splitting and joining again gives the text back. */
  lemma JoinSplit(s: string, sep: string)
    requires sep != []
    ensures Join(Split(s, sep), sep) == s
    ensures forall i :: 0 <= i < |Split(s, sep)| ==> !Contains(Split(s, sep)[i], sep)
    ensures forall i :: 0 <= i < |Split(s, sep)| - 1 ==>
              !Contains(Split(s, sep)[i] + sep[..|sep| - 1], sep)
  {
    SplitJoinsBack(s, sep);
    SplitPiecesFree(s, sep);
    SplitPiecesLeftmost(s, sep);
  }

  lemma {:induction false} SplitJoinsBack(s: string, sep: string)
    requires sep != []
    ensures Join(Split(s, sep), sep) == s
    decreases |s|
  {
    if |s| < |sep| {
    } else if s[..|sep|] == sep {
      var rest := Split(s[|sep|..], sep);
      assert Split(s, sep) == [""] + rest;
      SplitJoinsBack(s[|sep|..], sep);
      assert ([""] + rest)[1..] == rest;
      assert Join([""] + rest, sep) == "" + sep + Join(rest, sep);
      assert s == sep + s[|sep|..];
    } else {
      var rest := Split(s[1..], sep);
      assert Split(s, sep) == [[s[0]] + rest[0]] + rest[1..];
      SplitJoinsBack(s[1..], sep);
      assert rest == [rest[0]] + rest[1..];
      JoinConsHead([s[0]], rest[0], rest[1..], sep);
      assert Join(Split(s, sep), sep) == [s[0]] + s[1..];
      assert s == [s[0]] + s[1..];
    }
  }

  /** Splitting on a character at a point before its first occurrence. */
  lemma {:induction false} SplitCharPrefix(a: string, t: string, c: char)
    requires c !in a
    ensures Split(a + t, [c]) == [a + Split(t, [c])[0]] + Split(t, [c])[1..]
    decreases |a|
  {
    if a != [] {
      assert (a + t)[..1] == [a[0]];
      assert (a + t)[1..] == a[1..] + t;
      SplitCharPrefix(a[1..], t, c);
      assert [a[0]] + (a[1..] + Split(t, [c])[0]) == a + Split(t, [c])[0];
    } else {
      assert a + t == t;
      var r := Split(t, [c]);
      assert a + r[0] == r[0];
      assert r == [r[0]] + r[1..];
    }
  }

  /** Joining pieces free of `c` with `c` and splitting on `c` gives the pieces back. */
  lemma {:induction false} SplitJoinChar(parts: seq<string>, c: char)
    requires |parts| >= 1
    requires forall i :: 0 <= i < |parts| ==> c !in parts[i]
    ensures Split(Join(parts, [c]), [c]) == parts
    decreases |parts|
  {
    if |parts| == 1 {
      SplitCharPrefix(parts[0], "", c);
      assert Split("", [c]) == [""];
      assert parts[0] + "" == parts[0];
      assert Join(parts, [c]) == parts[0];
    } else {
      var tail := Join(parts[1..], [c]);
      assert Join(parts, [c]) == parts[0] + ([c] + tail);
      SplitCharPrefix(parts[0], [c] + tail, c);
      assert ([c] + tail)[..1] == [c];
      assert ([c] + tail)[1..] == tail;
      SplitJoinChar(parts[1..], c);
      var x := Split([c] + tail, [c]);
      assert x == [""] + parts[1..];
      assert x[0] == "" && x[1..] == parts[1..];
      assert parts[0] + x[0] == parts[0];
      assert parts == [parts[0]] + parts[1..];
    }
  }

  /** No piece of a split on a character contains that character. */
  lemma {:induction false} SplitCharPieces(s: string, c: char)
    ensures forall i :: 0 <= i < |Split(s, [c])| ==> c !in Split(s, [c])[i]
    decreases |s|
  {
    if |s| >= 1 {
      SplitCharPieces(s[1..], c);
      if s[..1] != [c] {
        assert s[0] != c;
      }
    }
  }

  /** The first piece of a split is a prefix of the text. */
  lemma {:induction false} SplitFirstIsPrefix(s: string, sep: string)
    requires sep != []
    ensures StartsWith(s, Split(s, sep)[0])
    decreases |s|
  {
    if |s| >= |sep| && s[..|sep|] != sep {
      SplitFirstIsPrefix(s[1..], sep);
    }
  }

  /** A string shorter than `t` does not contain it. */
  lemma {:induction false} ContainsShort(s: string, t: string)
    requires |s| < |t|
    ensures !Contains(s, t)
    decreases |s|
  {
    if s != [] {
      ContainsShort(s[1..], t);
    }
  }

  /** A string with one more character in front contains `t` only when it
      starts with `t` or the rest contains it. */
  lemma ContainsCons(c: char, x: string, t: string)
    ensures Contains([c] + x, t) <==> StartsWith([c] + x, t) || Contains(x, t)
  {
    assert ([c] + x)[1..] == x;
  }

  /** No piece of a split holds the separator: every occurrence is cut. */
  lemma {:induction false} SplitPiecesFree(s: string, sep: string)
    requires sep != []
    ensures forall i :: 0 <= i < |Split(s, sep)| ==> !Contains(Split(s, sep)[i], sep)
    decreases |s|
  {
    if |s| < |sep| {
      ContainsShort(s, sep);
    } else if s[..|sep|] == sep {
      var rest := Split(s[|sep|..], sep);
      SplitPiecesFree(s[|sep|..], sep);
      assert Split(s, sep) == [""] + rest;
      ContainsShort("", sep);
    } else {
      var rest := Split(s[1..], sep);
      SplitPiecesFree(s[1..], sep);
      SplitFirstIsPrefix(s[1..], sep);
      var h := [s[0]] + rest[0];
      assert Split(s, sep) == [h] + rest[1..];
      assert s[..|h|] == h;
      StartsWithTrans(s, h, sep);
      ContainsCons(s[0], rest[0], sep);
    }
  }

  /** The cuts are the leftmost occurrences: a piece followed by all but the
      last character of the separator after it still holds no separator, so
      no occurrence starts inside a piece and runs into the next separator. */
  lemma {:induction false} SplitPiecesLeftmost(s: string, sep: string)
    requires sep != []
    ensures forall i :: 0 <= i < |Split(s, sep)| - 1 ==>
              !Contains(Split(s, sep)[i] + sep[..|sep| - 1], sep)
    decreases |s|
  {
    var sep' := sep[..|sep| - 1];
    if |s| < |sep| {
    } else if s[..|sep|] == sep {
      var rest := Split(s[|sep|..], sep);
      SplitPiecesLeftmost(s[|sep|..], sep);
      assert Split(s, sep) == [""] + rest;
      assert "" + sep' == sep';
      ContainsShort(sep', sep);
    } else {
      var rest := Split(s[1..], sep);
      SplitPiecesLeftmost(s[1..], sep);
      var h := [s[0]] + rest[0];
      assert Split(s, sep) == [h] + rest[1..];
      if |rest| > 1 {
        SplitJoinsBack(s[1..], sep);
        LeftmostHead(s, sep, rest[0], Join(rest[1..], sep));
      }
    }
  }

  /** The head step of SplitPiecesLeftmost: when `s` does not start with
      `sep` and its tail is `p + sep + r` with `p + sep'` free of `sep`,
      then `s[0] + p + sep'` is free of `sep` too. */
  lemma LeftmostHead(s: string, sep: string, p: string, r: string)
    requires sep != [] && |s| >= |sep| && s[..|sep|] != sep
    requires s[1..] == p + sep + r
    requires !Contains(p + sep[..|sep| - 1], sep)
    ensures !Contains([s[0]] + p + sep[..|sep| - 1], sep)
  {
    var h := [s[0]] + (p + sep[..|sep| - 1]);
    HeadPrefix(s, sep, p, r);
    StartsWithTrans(s, h, sep);
    ContainsCons(s[0], p + sep[..|sep| - 1], sep);
    assert [s[0]] + p + sep[..|sep| - 1] == h;
  }

  /** `s[0] + p` and all but the last character of `sep` begin `s` when the
      rest of `s` is `p + sep + r`. */
  lemma HeadPrefix(s: string, sep: string, p: string, r: string)
    requires sep != [] && s != []
    requires s[1..] == p + sep + r
    ensures StartsWith(s, [s[0]] + (p + sep[..|sep| - 1]))
  {
    var sep' := sep[..|sep| - 1];
    var tail := [sep[|sep| - 1]] + r;
    var h := [s[0]] + (p + sep');
    assert sep == sep' + [sep[|sep| - 1]];
    assert p + sep + r == (p + sep') + tail;
    assert s == [s[0]] + s[1..];
    assert s == h + tail;
    assert s[..|h|] == h;
  }

  lemma StartsWithTrans(s: string, h: string, t: string)
    requires StartsWith(s, h)
    ensures StartsWith(h, t) ==> StartsWith(s, t)
  {
    if StartsWith(h, t) {
      assert s[..|t|] == h[..|t|];
    }
  }

  /** The first piece ends right before the first occurrence of a one-character
      separator, or is the whole text when the separator does not occur. */
  lemma {:induction false} SplitCharFirst(s: string, c: char)
    ensures c !in Split(s, [c])[0]
    ensures |Split(s, [c])[0]| < |s| ==> s[|Split(s, [c])[0]|] == c
    ensures c !in s ==> Split(s, [c])[0] == s
    decreases |s|
  {
    SplitCharPieces(s, c);
    SplitFirstIsPrefix(s, [c]);
    if |s| >= 1 && s[..1] != [c] {
      SplitCharFirst(s[1..], c);
      assert s[0] != c;
      if c !in s {
        assert forall x :: x in s[1..] ==> x in s;
      }
    }
  }

  /** `s.splitlines()` with '\n' as the only line break: no trailing empty line
      for a final '\n', and no lines at all for the empty string. */
  function SplitLines(s: string): seq<string> {
    if s == [] then []
    else if s[|s| - 1] == '\n' then Split(s[..|s| - 1], "\n")
    else Split(s, "\n")
  }

  /** Lines without '\n', the last one non-empty, survive `"\n".join` and `splitlines`. */
  lemma SplitLinesJoin(lines: seq<string>)
    requires forall i :: 0 <= i < |lines| ==> '\n' !in lines[i]
    requires lines != [] ==> lines[|lines| - 1] != ""
    ensures SplitLines(Join(lines, "\n")) == lines
  {
    if lines != [] {
      SplitJoinChar(lines, '\n');
      var s := Join(lines, "\n");
      SplitJoinsBack(s, "\n");
      LastOfJoin(lines, "\n");
      assert s[|s| - 1] in lines[|lines| - 1];
    }
  }

  lemma {:induction false} LastOfJoin(parts: seq<string>, sep: string)
    requires parts != [] && parts[|parts| - 1] != ""
    ensures var s := Join(parts, sep);
            s != [] && s[|s| - 1] == parts[|parts| - 1][|parts[|parts| - 1]| - 1]
    decreases |parts|
  {
    if |parts| > 1 {
      LastOfJoin(parts[1..], sep);
    }
  }

  function LowerChar(c: char): char {
    if 'A' <= c <= 'Z' then (c as int + 32) as char else c
  }

  /** `s.lower()`. */
  function Lower(s: string): (r: string)
    ensures |r| == |s|
    ensures forall i :: 0 <= i < |s| ==> r[i] == LowerChar(s[i])
    decreases |s|
  {
    if s == [] then [] else [LowerChar(s[0])] + Lower(s[1..])
  }

  /** The upper-case partner of an ASCII lower-case letter. */
  function UpperChar(c: char): char {
    if 'a' <= c <= 'z' then (c as int - 32) as char else c
  }

  /** A word of ASCII lower-case letters. */
  predicate LowerWord(w: string) {
    forall i :: 0 <= i < |w| ==> 'a' <= w[i] <= 'z'
  }

  /** `s` spells `w` letter by letter, each letter in either case. */
  predicate EqualsIgnoringCase(s: string, w: string) {
    |s| == |w| && forall i :: 0 <= i < |s| ==> s[i] == w[i] || s[i] == UpperChar(w[i])
  }

  lemma LowerCharIs(c: char, d: char)
    requires 'a' <= d <= 'z'
    ensures LowerChar(c) == d <==> c == d || c == UpperChar(d)
  {
  }

  /** `s.lower() == w` for a lower-case word `w` holds exactly when `s` is
      `w` with any of its letters in upper case. */
  lemma LowerEqualsWord(s: string, w: string)
    requires LowerWord(w)
    ensures Lower(s) == w <==> EqualsIgnoringCase(s, w)
  {
    if Lower(s) == w {
      forall i | 0 <= i < |s| ensures s[i] == w[i] || s[i] == UpperChar(w[i]) {
        LowerCharIs(s[i], w[i]);
      }
    }
    if EqualsIgnoringCase(s, w) {
      forall i | 0 <= i < |s| ensures Lower(s)[i] == w[i] {
        LowerCharIs(s[i], w[i]);
      }
    }
  }

  function DigitChar(d: nat): char
    requires d < 10
  {
    ('0' as int + d) as char
  }

  /** `str(n)` for a non-negative integer: its decimal digits. */
  function NatToString(n: nat): (r: string)
    ensures |r| >= 1
    ensures forall i :: 0 <= i < |r| ==> '0' <= r[i] <= '9'
    decreases n
  {
    if n < 10 then [DigitChar(n)] else NatToString(n / 10) + [DigitChar(n % 10)]
  }

  /** The number a string of decimal digits denotes. */
  function DigitsValue(s: string): int
    decreases |s|
  {
    if s == [] then 0 else 10 * DigitsValue(s[..|s| - 1]) + (s[|s| - 1] as int - '0' as int)
  }

  /** Reading the digits back gives the number: distinct numbers get distinct strings. */
  lemma {:induction false} NatToStringValue(n: nat)
    ensures DigitsValue(NatToString(n)) == n
    decreases n
  {
    if n >= 10 {
      NatToStringValue(n / 10);
      var s := NatToString(n);
      assert s[..|s| - 1] == NatToString(n / 10);
    }
  }
}
