/** Bytes and text as the download script sees them: the byte contents of
    local files, their decoding to text, Python's `readline()` on a file
    opened in text mode (universal newlines) and `str.split()` with no
    argument. */
module Text {

  newtype byte = x: int | 0 <= x < 256

  type Bytes = seq<byte>

  // ---------------------------------------------------------------------
  // Decoding

  /** The text a file opened with `open(path, "r")` yields, taken as one
      character per byte with the byte's value as its code; this agrees with
      the locale's decoding for ASCII bytes only. */
  function Decode(b: Bytes): (t: string)
    ensures |t| == |b|
    ensures forall i :: 0 <= i < |b| ==> t[i] as int == b[i] as int
  {
    seq(|b|, i requires 0 <= i < |b| => (b[i] as int) as char)
  }

  // ---------------------------------------------------------------------
  // Lines, as `readline()` delivers them with universal newlines

  /** `\n` and `\r` end a line; the pair `\r\n` ends it once. */
  predicate IsLineBreak(c: char) {
    c == '\n' || c == '\r'
  }

  predicate NoLineBreak(l: string) {
    forall i :: 0 <= i < |l| ==> !IsLineBreak(l[i])
  }

  /** The index of the first line break at or after `i`, or `|t|`. */
  function LineEnd(t: string, i: nat): (e: nat)
    requires i <= |t|
    ensures i <= e <= |t|
    ensures forall j :: i <= j < e ==> !IsLineBreak(t[j])
    ensures e < |t| ==> IsLineBreak(t[e])
    decreases |t| - i
  {
    if i == |t| || IsLineBreak(t[i]) then i else LineEnd(t, i + 1)
  }

  /** `\r\n` starts at index `e`. */
  predicate CrLfAt(t: string, e: nat) {
    e + 1 < |t| && t[e] == '\r' && t[e + 1] == '\n'
  }

  /** Where the next line starts, given the line break found at `e`. */
  function AfterBreak(t: string, e: nat): (n: nat)
    requires e <= |t|
    ensures e <= n <= |t|
    ensures e < |t| ==> e < n
  {
    if e == |t| then e
    else if CrLfAt(t, e) then e + 2
    else e + 1
  }

  /** One `readline()` on the text `t` that is still unread: the line (its
      terminator dropped) and how many characters the cursor advances.
      At the end of the file it yields the empty line and does not advance. */
  function ReadLine(t: string): (r: (string, nat))
    ensures r.1 <= |t|
    ensures t == [] <==> r.1 == 0
    ensures t == [] ==> r.0 == ""
    ensures |r.0| <= r.1 && NoLineBreak(r.0) && r.0 == t[..|r.0|]
    ensures |r.0| == |t| || IsLineBreak(t[|r.0|])
    ensures |r.0| == |t| ==> r.1 == |t|
    ensures |r.0| < |t| && CrLfAt(t, |r.0|) ==> r.1 == |r.0| + 2
    ensures |r.0| < |t| && !CrLfAt(t, |r.0|) ==> r.1 == |r.0| + 1
  {
    var e := LineEnd(t, 0);
    (t[..e], AfterBreak(t, e))
  }

  /** The lines of a text, in file order, as successive `readline()` calls
      deliver them before the end of the file. */
  function Lines(t: string): (ls: seq<string>)
    ensures forall k :: 0 <= k < |ls| ==> NoLineBreak(ls[k])
    decreases |t|
  {
    if t == [] then []
    else
      var (line, n) := ReadLine(t);
      [line] + Lines(t[n..])
  }

  /** A text written line by line, each line ended by `\n`. */
  function JoinLines(ls: seq<string>): string {
    if ls == [] then "" else ls[0] + "\n" + JoinLines(ls[1..])
  }

  lemma {:induction false} LineEndOfLine(l: string, rest: string, i: nat)
    requires NoLineBreak(l) && i <= |l|
    requires rest == [] || IsLineBreak(rest[0])
    ensures LineEnd(l + rest, i) == |l|
    decreases |l| - i
  {
    if i < |l| {
      LineEndOfLine(l, rest, i + 1);
    }
  }

  /** Reading back a text written line by line gives the same lines. */
  lemma {:induction false} LinesOfJoinLines(ls: seq<string>)
    requires forall k :: 0 <= k < |ls| ==> NoLineBreak(ls[k])
    ensures Lines(JoinLines(ls)) == ls
  {
    if ls != [] {
      var t := JoinLines(ls);
      var rest := JoinLines(ls[1..]);
      assert t == ls[0] + ("\n" + rest);
      LineEndOfLine(ls[0], "\n" + rest, 0);
      assert AfterBreak(t, |ls[0]|) == |ls[0]| + 1;
      assert t[|ls[0]| + 1..] == rest;
      LinesOfJoinLines(ls[1..]);
    }
  }

  /** The three line endings universal newlines recognise. */
  predicate IsLineEnding(b: string) {
    b == "\n" || b == "\r" || b == "\r\n"
  }

  /** A text written line by line, line `k` ended by `ends[k]`. */
  function Terminate(ls: seq<string>, ends: seq<string>): string
    requires |ls| == |ends|
    decreases |ls|
  {
    if ls == [] then "" else ls[0] + ends[0] + Terminate(ls[1..], ends[1..])
  }

  /** No `\r` ending is followed by an empty line ended by `\n`, which
      would read back as a single `\r\n`. */
  predicate Separable(ls: seq<string>, ends: seq<string>)
    requires |ls| == |ends|
  {
    forall k :: 0 <= k < |ls| - 1 && ends[k] == "\r" ==> ls[k + 1] != "" || ends[k + 1] != "\n"
  }

  /** One `readline()` of a line ended by a line ending: the line, and the
      cursor moves past its ending. */
  lemma ReadTerminatedLine(l: string, b: string, rest: string)
    requires NoLineBreak(l) && IsLineEnding(b)
    requires b == "\r" && rest != [] ==> rest[0] != '\n'
    ensures ReadLine(l + b + rest) == (l, |l| + |b|)
    ensures (l + b + rest)[|l| + |b|..] == rest
  {
    var t := l + b + rest;
    assert t == l + (b + rest);
    LineEndOfLine(l, b + rest, 0);
    assert t[..|l|] == l;
    if b == "\r" && rest != [] {
      assert t[|l| + 1] == rest[0];
    }
  }

  /** Where a `\r` ending is followed by more text, that text does not start with `\n`. */
  lemma NoLfAfterCr(ls: seq<string>, ends: seq<string>)
    requires |ls| == |ends| && |ls| > 0
    requires forall k :: 0 <= k < |ls| ==> NoLineBreak(ls[k]) && IsLineEnding(ends[k])
    requires Separable(ls, ends)
    ensures var rest := Terminate(ls[1..], ends[1..]);
      ends[0] == "\r" && rest != [] ==> rest[0] != '\n'
  {
    var rest := Terminate(ls[1..], ends[1..]);
    if ends[0] == "\r" && rest != [] {
      assert ls[1..][0] == ls[1] && ends[1..][0] == ends[1];
      assert rest == ls[1] + (ends[1] + Terminate(ls[1..][1..], ends[1..][1..]));
      if ls[1] == "" {
        assert rest[0] == ends[1][0];
      } else {
        assert rest[0] == ls[1][0];
      }
    }
  }

  lemma SeparableTail(ls: seq<string>, ends: seq<string>)
    requires |ls| == |ends| && |ls| > 0
    requires Separable(ls, ends)
    ensures Separable(ls[1..], ends[1..])
  {
    forall k | 0 <= k < |ls[1..]| - 1 && ends[1..][k] == "\r"
      ensures ls[1..][k + 1] != "" || ends[1..][k + 1] != "\n"
    {
      assert ends[1..][k] == ends[k + 1];
    }
  }

  /** Reading back a text whose lines end in any mix of `\n`, `\r` and
      `\r\n` gives the same lines. */
  lemma {:induction false} LinesOfTerminate(ls: seq<string>, ends: seq<string>)
    requires |ls| == |ends|
    requires forall k :: 0 <= k < |ls| ==> NoLineBreak(ls[k]) && IsLineEnding(ends[k])
    requires Separable(ls, ends)
    ensures Lines(Terminate(ls, ends)) == ls
    decreases |ls|
  {
    if ls != [] {
      var rest := Terminate(ls[1..], ends[1..]);
      var t := Terminate(ls, ends);
      assert t == ls[0] + ends[0] + rest;
      NoLfAfterCr(ls, ends);
      ReadTerminatedLine(ls[0], ends[0], rest);
      SeparableTail(ls, ends);
      LinesOfTerminate(ls[1..], ends[1..]);
      assert Lines(t) == [ls[0]] + Lines(rest);
    }
  }

  // ---------------------------------------------------------------------
  // Fields, as `str.split()` with no argument delivers them

  /** The ASCII characters `str.split()` treats as whitespace. */
  predicate IsSpace(c: char) {
    (9 <= c as int <= 13) || (28 <= c as int <= 32)
  }

  predicate IsBlank(s: string) {
    forall i :: 0 <= i < |s| ==> IsSpace(s[i])
  }

  /** A non-empty run of non-whitespace characters. */
  predicate IsToken(w: string) {
    |w| > 0 && forall i :: 0 <= i < |w| ==> !IsSpace(w[i])
  }

  /** The index of the first whitespace character at or after `i`, or `|s|`. */
  function TokenEnd(s: string, i: nat): (e: nat)
    requires i <= |s|
    ensures i <= e <= |s|
    ensures forall j :: i <= j < e ==> !IsSpace(s[j])
    ensures e < |s| ==> IsSpace(s[e])
    decreases |s| - i
  {
    if i == |s| || IsSpace(s[i]) then i else TokenEnd(s, i + 1)
  }

  /** The maximal runs of non-whitespace characters of `s`, in order. */
  function Fields(s: string): (r: seq<string>)
    ensures forall k :: 0 <= k < |r| ==> IsToken(r[k])
    decreases |s|
  {
    if s == [] then []
    else if IsSpace(s[0]) then Fields(s[1..])
    else
      var e := TokenEnd(s, 0);
      [s[..e]] + Fields(s[e..])
  }

  /** The fields written out, separated by single spaces. */
  function Join(ws: seq<string>): string
    decreases |ws|
  {
    if ws == [] then ""
    else if |ws| == 1 then ws[0]
    else ws[0] + " " + Join(ws[1..])
  }

  /** A line splits into no field exactly when it is all whitespace. */
  lemma {:induction false} FieldsEmptyIffBlank(s: string)
    ensures Fields(s) == [] <==> IsBlank(s)
    decreases |s|
  {
    if s != [] && IsSpace(s[0]) {
      FieldsEmptyIffBlank(s[1..]);
      assert IsBlank(s) <==> IsBlank(s[1..]) by {
        forall i | 0 < i < |s| ensures s[i] == s[1..][i - 1] { }
      }
    }
  }

  lemma {:induction false} TokenEndOfToken(w: string, rest: string, i: nat)
    requires IsToken(w) && i <= |w|
    requires rest == [] || IsSpace(rest[0])
    ensures TokenEnd(w + rest, i) == |w|
    decreases |w| - i
  {
    if i < |w| {
      TokenEndOfToken(w, rest, i + 1);
    }
  }

  /** Splitting tokens joined by spaces gives the tokens back. */
  lemma {:induction false} FieldsOfJoin(ws: seq<string>)
    requires forall k :: 0 <= k < |ws| ==> IsToken(ws[k])
    ensures Fields(Join(ws)) == ws
    decreases |ws|
  {
    if |ws| == 1 {
      TokenEndOfToken(ws[0], "", 0);
      assert ws[0] + "" == ws[0];
      assert Join(ws)[|ws[0]|..] == [];
    } else if |ws| > 1 {
      var w := ws[0];
      var rest := Join(ws[1..]);
      var s := w + (" " + rest);
      assert Join(ws) == s;
      TokenEndOfToken(w, " " + rest, 0);
      assert s[|w|..] == " " + rest;
      assert (" " + rest)[1..] == rest;
      FieldsOfJoin(ws[1..]);
    }
  }

  /** Leading whitespace yields no field. */
  lemma {:induction false} FieldsAfterBlank(b: string, s: string)
    requires IsBlank(b)
    ensures Fields(b + s) == Fields(s)
    decreases |b|
  {
    if b != [] {
      assert (b + s)[0] == b[0] && IsSpace(b[0]);
      assert (b + s)[1..] == b[1..] + s;
      assert IsBlank(b[1..]) by {
        forall i | 0 <= i < |b[1..]| ensures IsSpace(b[1..][i]) {
          assert b[1..][i] == b[i + 1];
        }
      }
      FieldsAfterBlank(b[1..], s);
      assert Fields(b + s) == Fields((b + s)[1..]);
    } else {
      assert b + s == s;
    }
  }

  /** A token followed by whitespace or the end of the line is the next field. */
  lemma FieldsOfTokenThen(w: string, s: string)
    requires IsToken(w) && (s == [] || IsSpace(s[0]))
    ensures Fields(w + s) == [w] + Fields(s)
  {
    TokenEndOfToken(w, s, 0);
    assert (w + s)[0] == w[0];
    assert (w + s)[..|w|] == w;
    assert (w + s)[|w|..] == s;
  }

  /** Any run of whitespace (tabs, several spaces, ...) separates two fields,
      and whitespace before the first field or after the last yields none. */
  lemma FieldsOfSpacedToken(b: string, w: string, c: string, rest: string)
    requires IsBlank(b) && IsToken(w) && IsBlank(c)
    requires c != [] || rest == []
    ensures Fields(b + w + c + rest) == [w] + Fields(rest)
  {
    assert b + w + c + rest == b + (w + (c + rest));
    FieldsAfterBlank(b, w + (c + rest));
    if c != [] {
      assert (c + rest)[0] == c[0];
    }
    FieldsOfTokenThen(w, c + rest);
    FieldsAfterBlank(c, rest);
  }

  /** The fields `ws` laid out on a line: `gaps[k]` before field `k`, `tail`
      after the last one. */
  function Spaced(ws: seq<string>, gaps: seq<string>, tail: string): string
    requires |gaps| == |ws|
    decreases |ws|
  {
    if ws == [] then tail else gaps[0] + ws[0] + Spaced(ws[1..], gaps[1..], tail)
  }

  /** Gaps of any whitespace, non-empty between fields. */
  predicate SpacedLayout(ws: seq<string>, gaps: seq<string>, tail: string) {
    |gaps| == |ws| &&
    (forall k :: 0 <= k < |ws| ==> IsToken(ws[k]) && IsBlank(gaps[k])) &&
    (forall k :: 0 < k < |ws| ==> gaps[k] != "") &&
    IsBlank(tail)
  }

  /** Dropping the first field keeps the layout. */
  lemma SpacedLayoutOfRest(ws: seq<string>, gaps: seq<string>, tail: string)
    requires SpacedLayout(ws, gaps, tail) && ws != []
    ensures SpacedLayout(ws[1..], gaps[1..], tail)
  {
    forall k | 0 < k < |ws[1..]| ensures gaps[1..][k] != "" {
      assert gaps[1..][k] == gaps[k + 1];
    }
  }

  /** After the first field of a spaced line comes whitespace or nothing. */
  lemma SpacedRestStartsBlank(ws: seq<string>, gaps: seq<string>, tail: string)
    requires SpacedLayout(ws, gaps, tail) && ws != []
    ensures var rest := Spaced(ws[1..], gaps[1..], tail); rest == [] || IsSpace(rest[0])
  {
    if |ws| > 1 {
      var rest := Spaced(ws[1..], gaps[1..], tail);
      assert rest == gaps[1] + (ws[1] + Spaced(ws[2..], gaps[2..], tail));
      assert rest[0] == gaps[1][0];
    }
  }

  /** `split()` recovers the fields of a line however they are spaced. */
  lemma {:induction false} FieldsOfSpaced(ws: seq<string>, gaps: seq<string>, tail: string)
    requires SpacedLayout(ws, gaps, tail)
    ensures Fields(Spaced(ws, gaps, tail)) == ws
    decreases |ws|
  {
    if ws == [] {
      FieldsEmptyIffBlank(tail);
    } else {
      var rest := Spaced(ws[1..], gaps[1..], tail);
      SpacedLayoutOfRest(ws, gaps, tail);
      FieldsOfSpaced(ws[1..], gaps[1..], tail);
      SpacedRestStartsBlank(ws, gaps, tail);
      FieldsAfterBlank(gaps[0], ws[0] + rest);
      FieldsOfTokenThen(ws[0], rest);
      assert Spaced(ws, gaps, tail) == gaps[0] + (ws[0] + rest);
    }
  }

  /** With gaps free of line breaks, a spaced line is one line. */
  lemma {:induction false} SpacedHasNoLineBreak(ws: seq<string>, gaps: seq<string>, tail: string)
    requires SpacedLayout(ws, gaps, tail)
    requires forall k :: 0 <= k < |gaps| ==> NoLineBreak(gaps[k])
    requires NoLineBreak(tail)
    ensures NoLineBreak(Spaced(ws, gaps, tail))
    ensures ws != [] ==> Spaced(ws, gaps, tail) != ""
    decreases |ws|
  {
    if ws != [] {
      assert SpacedLayout(ws[1..], gaps[1..], tail) by {
        forall k | 0 < k < |ws[1..]| ensures gaps[1..][k] != "" {
          assert gaps[1..][k] == gaps[k + 1];
        }
      }
      SpacedHasNoLineBreak(ws[1..], gaps[1..], tail);
      assert NoLineBreak(ws[0]);
      NoLineBreakConcat(gaps[0], ws[0]);
      NoLineBreakConcat(gaps[0] + ws[0], Spaced(ws[1..], gaps[1..], tail));
    }
  }

  /** `\r\n`, `\r` and `\n` each end one line. */
  lemma MixedEndings()
    ensures Lines("a\r\nb\rc\n") == ["a", "b", "c"]
  {
    var ls := ["a", "b", "c"];
    var ends := ["\r\n", "\r", "\n"];
    assert ls[1..][1..] == ["c"] && ends[1..][1..] == ["\n"];
    assert Terminate(["c"], ["\n"]) == "c\n" + Terminate([], []);
    assert Terminate(ls[1..], ends[1..]) == "b\r" + "c\n";
    assert Terminate(ls, ends) == "a\r\nb\rc\n";
    LinesOfTerminate(ls, ends);
  }

  /** Leading blanks, a run of tabs and a trailing blank separate nothing more. */
  lemma TabsAndRuns()
    ensures Fields(" sha512\t\t ab ") == ["sha512", "ab"]
  {
    var ws := ["sha512", "ab"];
    var gaps := [" ", "\t\t "];
    assert IsToken("sha512") by {
      assert forall i :: 0 <= i < |"sha512"| ==> !IsSpace("sha512"[i]);
    }
    assert SpacedLayout(ws, gaps, " ");
    assert ws[1..] == ["ab"] && gaps[1..] == ["\t\t "];
    assert Spaced(["ab"], ["\t\t "], " ") == "\t\t " + "ab" + Spaced([], [], " ");
    assert Spaced(ws, gaps, " ") == " sha512\t\t ab ";
    FieldsOfSpaced(ws, gaps, " ");
  }

  lemma NoLineBreakConcat(a: string, b: string)
    requires NoLineBreak(a) && NoLineBreak(b)
    ensures NoLineBreak(a + b)
  {
    forall i | 0 <= i < |a + b| ensures !IsLineBreak((a + b)[i]) {
      if i >= |a| {
        assert (a + b)[i] == b[i - |a|];
      }
    }
  }

  /** No token contains whitespace, so no line of space-joined tokens holds a line break. */
  lemma {:induction false} JoinTokensHasNoLineBreak(ws: seq<string>)
    requires forall k :: 0 <= k < |ws| ==> IsToken(ws[k])
    ensures NoLineBreak(Join(ws))
    decreases |ws|
  {
    if |ws| == 1 {
      assert Join(ws) == ws[0];
    } else if |ws| > 1 {
      JoinTokensHasNoLineBreak(ws[1..]);
      assert NoLineBreak(ws[0]);
      NoLineBreakConcat(" ", Join(ws[1..]));
      NoLineBreakConcat(ws[0], " " + Join(ws[1..]));
      assert Join(ws) == ws[0] + (" " + Join(ws[1..]));
    }
  }
}
