/**
 Cutting saved scrollback down to size, over the bytes of the text: at most so many lines, then at most so many bytes,
 moved so that no character is split and no open escape sequence loses its head.
 */
module Scrollback {
  import opened Common
  import opened Streams

  const MAX_LINES: nat := 4000
  const CAP: nat := 400000
  const LOOKBACK: nat := 32
  const CR: Byte := 13
  const ESC: Byte := 27
  const BRACKET: Byte := 91

  // ----- text as bytes

  predicate IsContinuation(b: Byte) {
    0x80 <= b < 0xC0
  }

  /** A continuation byte has a lead or continuation byte before it, and not three more after it. */
  ghost predicate FitsAt(t: seq<Byte>, i: nat)
    requires i < |t|
  {
    IsContinuation(t[i]) ==>
      && i > 0 && t[i - 1] >= 0x80
      && !(i + 3 < |t| && IsContinuation(t[i + 1]) && IsContinuation(t[i + 2]) && IsContinuation(t[i + 3]))
  }

  /** What UTF-8 guarantees of neighbouring bytes. */
  ghost predicate TextLike(t: seq<Byte>) {
    forall i | 0 <= i < |t| :: FitsAt(t, i)
  }

  predicate IsBoundary(t: seq<Byte>, i: nat) {
    i == 0 || i == |t| || (i < |t| && !IsContinuation(t[i]))
  }

  // ----- lines

  function WithoutCr(line: seq<Byte>): seq<Byte> {
    if line != [] && line[|line| - 1] == CR then line[..|line| - 1] else line
  }

  /** Lines without their ends, which are a newline, perhaps after a carriage return. */
  function Lines(t: seq<Byte>): seq<seq<Byte>> {
    match FindNewline(t)
    case Some(i) => [WithoutCr(t[..i])] + Lines(t[i + 1..])
    case None => if t == [] then [] else [t]
  }

  function Join(lines: seq<seq<Byte>>): seq<Byte> {
    if lines == [] then [] else if |lines| == 1 then lines[0] else lines[0] + [NEWLINE] + Join(lines[1..])
  }

  function LastLines(t: seq<Byte>): seq<Byte> {
    var lines := Lines(t);
    if |lines| > MAX_LINES then Join(lines[|lines| - MAX_LINES..]) else t
  }

  lemma {:induction false} LinesHaveNoNewline(t: seq<Byte>)
    ensures forall l | l in Lines(t) :: NEWLINE !in l
  {
    match FindNewline(t)
    case Some(i) => LinesHaveNoNewline(t[i + 1..]);
    case None =>
  }

  lemma {:induction false} JoinGivesNoMoreLines(lines: seq<seq<Byte>>)
    requires forall l | l in lines :: NEWLINE !in l
    ensures |Lines(Join(lines))| <= |lines|
  {
    if |lines| == 1 {
      assert lines[0] in lines;
      Absent(lines[0]);
    } else if |lines| > 1 {
      var rest := Join(lines[1..]);
      var nl: seq<Byte> := [NEWLINE];
      JoinGivesNoMoreLines(lines[1..]);
      assert lines[0] in lines;
      Absent(lines[0]);
      FindInParts(lines[0], nl);
      FindInParts(lines[0] + nl, rest);
      assert (lines[0] + nl + rest)[|lines[0]| + 1..] == rest;
    }
  }

  lemma JoinOfLastLines(lines: seq<seq<Byte>>, from: nat)
    requires from <= |lines| && forall l | l in lines :: NEWLINE !in l
    ensures |Lines(Join(lines[from..]))| <= |lines| - from
  {
    assert forall l | l in lines[from..] :: l in lines;
    JoinGivesNoMoreLines(lines[from..]);
  }

  lemma AtMostMaxLines(t: seq<Byte>)
    ensures |Lines(LastLines(t))| <= MAX_LINES
  {
    var lines := Lines(t);
    LinesHaveNoNewline(t);
    if |lines| > MAX_LINES {
      JoinOfLastLines(lines, |lines| - MAX_LINES);
    }
  }

  /** A line as it is written: its text, and whether its newline comes after a carriage return. */
  datatype Line = Line(text: seq<Byte>, cr: bool)

  /** A text without newlines; if its own newline comes alone, it does not end in a carriage return either. */
  predicate Writable(line: Line) {
    NEWLINE !in line.text && (line.cr || line.text == [] || line.text[|line.text| - 1] != CR)
  }

  function Written(lines: seq<Line>): seq<Byte> {
    if lines == [] then []
    else lines[0].text + ((if lines[0].cr then [CR, NEWLINE] else [NEWLINE]) + Written(lines[1..]))
  }

  function Texts(lines: seq<Line>): seq<seq<Byte>> {
    seq(|lines|, i requires 0 <= i < |lines| => lines[i].text)
  }

  lemma LinesOfParts(body: seq<Byte>, more: seq<Byte>)
    requires NEWLINE !in body
    ensures Lines(body + ([NEWLINE] + more)) == [WithoutCr(body)] + Lines(more)
  {
    var all := body + ([NEWLINE] + more);
    Absent(body);
    FindInParts(body, [NEWLINE] + more);
    assert FindNewline(all) == Some(|body|);
    assert all[..|body|] == body && all[|body| + 1..] == more;
  }

  lemma BodyOf(line: Line, more: seq<Byte>) returns (body: seq<Byte>)
    requires Writable(line)
    ensures NEWLINE !in body && WithoutCr(body) == line.text
    ensures line.text + ((if line.cr then [CR, NEWLINE] else [NEWLINE]) + more) == body + ([NEWLINE] + more)
  {
    body := if line.cr then line.text + [CR] else line.text;
  }

  lemma FirstWritten(line: Line, more: seq<Byte>)
    requires Writable(line)
    ensures Lines(line.text + ((if line.cr then [CR, NEWLINE] else [NEWLINE]) + more)) == [line.text] + Lines(more)
  {
    var body := BodyOf(line, more);
    LinesOfParts(body, more);
  }

  /** Lines are read back as they were written, whichever way they end; what follows the last end is a line too. */
  lemma {:induction false} LinesComeBack(lines: seq<Line>, tail: seq<Byte>)
    requires NEWLINE !in tail && forall i | 0 <= i < |lines| :: Writable(lines[i])
    ensures Lines(Written(lines) + tail) == Texts(lines) + if tail == [] then [] else [tail]
  {
    if lines == [] {
      assert Written(lines) + tail == tail;
      Absent(tail);
    } else {
      LinesComeBack(lines[1..], tail);
      FirstWritten(lines[0], Written(lines[1..]) + tail);
      WrittenHead(lines, tail);
      TextsHead(lines, if tail == [] then [] else [tail]);
    }
  }

  lemma WrittenHead(lines: seq<Line>, tail: seq<Byte>)
    requires lines != []
    ensures Written(lines) + tail ==
              lines[0].text + ((if lines[0].cr then [CR, NEWLINE] else [NEWLINE]) + (Written(lines[1..]) + tail))
  {
  }

  lemma TextsHead(lines: seq<Line>, more: seq<seq<Byte>>)
    requires lines != []
    ensures Texts(lines) + more == [lines[0].text] + (Texts(lines[1..]) + more)
  {
  }

  /** Of written lines the last four thousand are kept, joined by newlines; no more than that many are kept as
      written. */
  lemma LastLinesAreKept(lines: seq<Line>, tail: seq<Byte>)
    requires NEWLINE !in tail && forall i | 0 <= i < |lines| :: Writable(lines[i])
    ensures
      var t, all := Written(lines) + tail, Texts(lines) + if tail == [] then [] else [tail];
      LastLines(t) == if |all| > 4000 then Join(all[|all| - 4000..]) else t
  {
    LinesComeBack(lines, tail);
  }

  /** A line of a text begins at `i`. */
  predicate BeginsLine(t: seq<Byte>, i: nat) {
    i <= |t| && (i == 0 || t[i - 1] == NEWLINE)
  }

  lemma BeginsLater(t: seq<Byte>, n: nat, j: nat)
    requires n < |t| && t[n] == NEWLINE && BeginsLine(t[n + 1..], j)
    ensures BeginsLine(t, n + 1 + j)
  {
  }

  lemma FromLaterLine(t: seq<Byte>, n: nat, k: nat, j: nat)
    requires FindNewline(t) == Some(n) && 0 < k < |Lines(t)| && BeginsLine(t[n + 1..], j)
    requires Lines(t[n + 1..][j..]) == Lines(t[n + 1..])[k - 1..]
    ensures BeginsLine(t, n + 1 + j) && Lines(t[n + 1 + j..]) == Lines(t)[k..]
  {
    BeginsLater(t, n, j);
    DropTwice(t, n + 1, j);
    DropPastFirst(WithoutCr(t[..n]), Lines(t[n + 1..]), k);
  }

  lemma FirstNewline(t: seq<Byte>) returns (n: nat)
    requires |Lines(t)| > 1
    ensures n < |t| && FindNewline(t) == Some(n) && |Lines(t[n + 1..])| == |Lines(t)| - 1
  {
    n := FindNewline(t).value;
  }

  /** The place where all but `k` lines of a text begin. */
  lemma {:induction false} FromLine(t: seq<Byte>, k: nat) returns (i: nat)
    requires k < |Lines(t)|
    ensures BeginsLine(t, i) && Lines(t[i..]) == Lines(t)[k..]
    decreases |t|
  {
    if k == 0 {
      i := 0;
      WholeBegins(t);
      WholeBegins(Lines(t));
    } else {
      var n := FirstNewline(t);
      var j := FromLine(t[n + 1..], k - 1);
      FromLaterLine(t, n, k, j);
      i := n + 1 + j;
    }
  }

  lemma WholeBegins<T>(s: seq<T>)
    ensures s[0..] == s
  {
  }

  lemma DropTwice<T>(s: seq<T>, i: nat, j: nat)
    requires i <= |s| && j <= |s| - i
    ensures s[i..][j..] == s[i + j..]
  {
  }

  lemma DropPastFirst<T>(x: T, s: seq<T>, k: nat)
    requires 0 < k <= |s| + 1
    ensures ([x] + s)[k..] == s[k - 1..]
  {
  }

  lemma JoinHead(line: seq<Byte>, lines: seq<seq<Byte>>)
    ensures Join([line] + lines) == if lines == [] then line else line + ([NEWLINE] + Join(lines))
  {
    assert ([line] + lines)[1..] == lines;
  }

  /** `s` is `t`, but perhaps for a newline at the end. */
  ghost predicate ButForNewline(s: seq<Byte>, t: seq<Byte>) {
    s == t || s + [NEWLINE] == t
  }

  lemma ButForNewlineAfter(a: seq<Byte>, s: seq<Byte>, t: seq<Byte>)
    requires ButForNewline(s, t)
    ensures ButForNewline(a + ([NEWLINE] + s), a + [NEWLINE] + t)
  {
    assert a + ([NEWLINE] + s) + [NEWLINE] == a + [NEWLINE] + (s + [NEWLINE]);
    assert a + ([NEWLINE] + s) == a + [NEWLINE] + s;
  }

  /** Without carriage returns, the lines of a text joined are that text, but for a newline at its end. */
  lemma {:induction false} JoinOfLines(t: seq<Byte>)
    requires CR !in t
    ensures ButForNewline(Join(Lines(t)), t)
  {
    match FindNewline(t)
    case None =>
    case Some(n) =>
      var rest := t[n + 1..];
      JoinOfLines(rest);
      CutAtNewline(t, n);
      JoinHead(t[..n], Lines(rest));
      ButForNewlineAfter(t[..n], Join(Lines(rest)), rest);
  }

  lemma CutAtNewline(t: seq<Byte>, n: nat)
    requires n < |t| && t[n] == NEWLINE && CR !in t
    ensures t == t[..n] + [NEWLINE] + t[n + 1..] && WithoutCr(t[..n]) == t[..n]
    ensures Lines(t[n + 1..]) == [] ==> t[..n] + [NEWLINE] == t
  {
  }

  lemma LastLinesFrom(t: seq<Byte>, i: nat)
    requires CR !in t && i <= |t| && |Lines(t)| > MAX_LINES && Lines(t[i..]) == Lines(t)[|Lines(t)| - MAX_LINES..]
    ensures ButForNewline(LastLines(t), t[i..])
  {
    NoneInRest(t, i, CR);
    JoinOfThese(t[i..], Lines(t)[|Lines(t)| - MAX_LINES..]);
  }

  lemma NoneInRest<T>(s: seq<T>, i: nat, x: T)
    requires i <= |s| && x !in s
    ensures x !in s[i..]
  {
  }

  lemma JoinOfThese(t: seq<Byte>, lines: seq<seq<Byte>>)
    requires CR !in t && Lines(t) == lines
    ensures ButForNewline(Join(lines), t)
  {
    JoinOfLines(t);
  }

  /** Without carriage returns, what is kept of the lines is the end of the text from the beginning of a line on, but
      for a newline at the end; four thousand lines begin there, or all there are. */
  lemma KeptLinesAreTheEnd(t: seq<Byte>) returns (i: nat)
    requires CR !in t
    ensures BeginsLine(t, i) && ButForNewline(LastLines(t), t[i..])
    ensures |Lines(t[i..])| == if |Lines(t)| > 4000 then 4000 else |Lines(t)|
  {
    if |Lines(t)| > MAX_LINES {
      i := FromLine(t, |Lines(t)| - MAX_LINES);
      LastLinesFrom(t, i);
    } else {
      i := 0;
      assert t[0..] == t;
    }
  }

  lemma TextLikeJoin(a: seq<Byte>, b: seq<Byte>)
    requires TextLike(a) && TextLike(b)
    ensures TextLike(a + [NEWLINE] + b)
  {
    var t := a + [NEWLINE] + b;
    forall i | 0 <= i < |t| ensures FitsAt(t, i) {
      if i < |a| {
        assert FitsAt(a, i);
      } else if i > |a| {
        assert FitsAt(b, i - |a| - 1);
      }
    }
  }

  /** A part that begins with a whole character. */
  lemma TextLikePart(t: seq<Byte>, lo: nat, hi: nat)
    requires TextLike(t) && lo <= hi <= |t|
    requires lo < hi ==> !IsContinuation(t[lo])
    ensures TextLike(t[lo..hi])
  {
    var part := t[lo..hi];
    forall i | 0 <= i < |part| ensures FitsAt(part, i) {
      assert FitsAt(t, lo + i);
    }
  }

  lemma AfterNewline(t: seq<Byte>, i: nat)
    requires TextLike(t) && i < |t| && t[i] == NEWLINE
    ensures i + 1 < |t| ==> !IsContinuation(t[i + 1])
  {
    assert i + 1 < |t| ==> FitsAt(t, i + 1);
  }

  lemma LineIsTextLike(t: seq<Byte>, i: nat)
    requires TextLike(t) && i < |t| && t[i] == NEWLINE
    ensures TextLike(WithoutCr(t[..i])) && TextLike(t[i + 1..])
  {
    var line := WithoutCr(t[..i]);
    assert FitsAt(t, 0);
    TextLikePart(t, 0, |line|);
    assert t[0..|line|] == line;
    AfterNewline(t, i);
    TextLikePart(t, i + 1, |t|);
    assert t[i + 1..|t|] == t[i + 1..];
  }

  lemma {:induction false} LinesAreTextLike(t: seq<Byte>)
    requires TextLike(t)
    ensures forall l | l in Lines(t) :: TextLike(l)
  {
    match FindNewline(t)
    case Some(i) =>
      LineIsTextLike(t, i);
      LinesAreTextLike(t[i + 1..]);
    case None =>
  }

  lemma {:induction false} JoinIsTextLike(lines: seq<seq<Byte>>)
    requires forall l | l in lines :: TextLike(l)
    ensures TextLike(Join(lines))
  {
    if |lines| >= 1 {
      assert lines[0] in lines;
    }
    if |lines| > 1 {
      JoinIsTextLike(lines[1..]);
      TextLikeJoin(lines[0], Join(lines[1..]));
    }
  }

  lemma LastLinesAreTextLike(t: seq<Byte>)
    requires TextLike(t)
    ensures TextLike(LastLines(t))
  {
    var lines := Lines(t);
    LinesAreTextLike(t);
    if |lines| > MAX_LINES {
      var last := lines[|lines| - MAX_LINES..];
      assert forall l | l in last :: l in lines;
      JoinIsTextLike(last);
    }
  }

  // ----- the cut

  /** The first place at `from` or later where the text may be cut. */
  function FirstBoundary(t: seq<Byte>, from: nat): (r: nat)
    requires from <= |t|
    ensures from <= r <= |t| && IsBoundary(t, r) && forall i | from <= i < r :: !IsBoundary(t, i)
    decreases |t| - from
  {
    if IsBoundary(t, from) then from else FirstBoundary(t, from + 1)
  }

  predicate Terminates(b: Byte) {
    0x40 <= b <= 0x7E && b != BRACKET
  }

  /** The last escape byte in [lo, hi) begins a sequence that nothing before `hi` terminates. */
  ghost predicate OpensAt(t: seq<Byte>, lo: nat, hi: nat, e: nat)
    requires hi <= |t|
  {
    lo <= e < hi && t[e] == ESC && forall i | e < i < hi :: t[i] != ESC && !Terminates(t[i])
  }

  /** Where the sequence open at `hi` began. */
  function OpenEscape(t: seq<Byte>, lo: nat, hi: nat): (r: Option<nat>)
    requires lo <= hi <= |t|
    ensures r.Some? ==> OpensAt(t, lo, hi, r.value)
    ensures r.None? ==> forall e :: !OpensAt(t, lo, hi, e)
    decreases hi
  {
    if lo == hi then None
    else if t[hi - 1] == ESC then Some(hi - 1)
    else if Terminates(t[hi - 1]) then None
    else
      var r := OpenEscape(t, lo, hi - 1);
      assert forall e :: OpensAt(t, lo, hi, e) ==> OpensAt(t, lo, hi - 1, e);
      r
  }

  /** The start of the line around `e`, not looking before `lo`. */
  function LineStart(t: seq<Byte>, lo: nat, e: nat): (r: nat)
    requires lo <= e < |t|
    ensures lo <= r <= e + 1 && forall i | r <= i <= e :: t[i] != NEWLINE
    ensures r == lo || t[r - 1] == NEWLINE
    decreases e
  {
    if t[e] == NEWLINE then e + 1 else if e == lo then lo else LineStart(t, lo, e - 1)
  }

  datatype Result = Text(text: seq<Byte>) | Panics

  function Start(t: seq<Byte>): nat
    requires |t| > CAP
  {
    FirstBoundary(t, |t| - CAP)
  }

  function From(t: seq<Byte>): nat
    requires |t| > CAP
  {
    if Start(t) > LOOKBACK then Start(t) - LOOKBACK else 0
  }

  /** Cut at `start`, unless a sequence begun at `lo` or later is open there. */
  function CutAt(t: seq<Byte>, lo: nat, start: nat): Result
    requires lo <= start <= |t|
  {
    match OpenEscape(t, lo, start)
    case None => Text(t[start..])
    case Some(e) =>
      var i := LineStart(t, lo, e);
      if IsBoundary(t, i) then Text(t[i..]) else Panics
  }

  function Cut(t: seq<Byte>): Result {
    if |t| <= CAP then Text(t) else CutAt(t, From(t), Start(t))
  }

  // ----- the code

  /** The position that the text is cut at, once the scan has been made. */
  method ScanEscape(t: seq<Byte>, lo: nat, hi: nat) returns (inEscape: bool, escapeStart: nat)
    requires lo <= hi <= |t|
    ensures OpenEscape(t, lo, hi) == if inEscape then Some(escapeStart) else None
  {
    inEscape, escapeStart := false, 0;
    for pos := lo to hi
      invariant OpenEscape(t, lo, pos) == if inEscape then Some(escapeStart) else None
    {
      if t[pos] == ESC {
        inEscape, escapeStart := true, pos;
      } else if inEscape {
        if t[pos] == BRACKET {
          continue;
        } else if 0x40 <= t[pos] <= 0x7E {
          inEscape := false;
        }
      }
    }
  }

  method BackUpToLine(t: seq<Byte>, lo: nat, e: nat) returns (pos: nat)
    requires lo <= e < |t|
    ensures pos == LineStart(t, lo, e)
  {
    pos := e;
    while pos > lo && t[pos] != NEWLINE
      invariant lo <= pos <= e && LineStart(t, lo, pos) == LineStart(t, lo, e)
    {
      pos := pos - 1;
    }
    if t[pos] == NEWLINE {
      pos := pos + 1;
    }
  }

  method SafeStart(t: seq<Byte>, start: nat) returns (safeStart: nat)
    requires start <= |t|
    ensures safeStart == FirstBoundary(t, start)
  {
    safeStart := start;
    while safeStart < |t| && !IsBoundary(t, safeStart)
      invariant start <= safeStart <= |t| && FirstBoundary(t, safeStart) == FirstBoundary(t, start)
    {
      safeStart := safeStart + 1;
    }
  }

  method CutSafely(t: seq<Byte>, lookback: nat, safeStart: nat) returns (r: Result)
    requires lookback <= safeStart <= |t|
    ensures r == CutAt(t, lookback, safeStart)
  {
    var inEscape, escapeStart := ScanEscape(t, lookback, safeStart);
    if !inEscape {
      return Text(t[safeStart..]);
    }
    var i := BackUpToLine(t, lookback, escapeStart);
    if !IsBoundary(t, i) {
      return Panics;
    }
    r := Text(t[i..]);
  }

  /** Where to cut if no sequence is open there, and from where on to look for one. */
  method Bounds(t: seq<Byte>) returns (lookback: nat, safeStart: nat)
    requires |t| > CAP
    ensures lookback == From(t) && safeStart == Start(t)
  {
    safeStart := SafeStart(t, |t| - CAP);
    lookback := if safeStart > LOOKBACK then safeStart - LOOKBACK else 0;
  }

  method CutToCap(t: seq<Byte>) returns (r: Result)
    ensures r == Cut(t)
  {
    if |t| <= CAP {
      return Text(t);
    }
    var lookback, safeStart := Bounds(t);
    r := CutSafely(t, lookback, safeStart);
  }

  method TruncateScrollback(text: seq<Byte>) returns (r: Result)
    ensures r == Cut(LastLines(text))
  {
    r := CutToCap(LastLines(text));
  }

  // ----- what comes out

  ghost predicate IsSuffix(s: seq<Byte>, t: seq<Byte>) {
    |s| <= |t| && s == t[|t| - |s|..]
  }

  lemma BoundaryIsNear(t: seq<Byte>, from: nat)
    requires TextLike(t) && from <= |t|
    ensures FirstBoundary(t, from) <= from + 3
    ensures forall j | from <= j < FirstBoundary(t, from) :: IsContinuation(t[j])
  {
    forall j | from <= j < FirstBoundary(t, from) ensures IsContinuation(t[j]) {
      assert !IsBoundary(t, j);
    }
    assert from < |t| ==> FitsAt(t, from);
    assert from + 3 <= |t| ==>
      IsBoundary(t, from) || IsBoundary(t, from + 1) || IsBoundary(t, from + 2) || IsBoundary(t, from + 3);
  }

  /** A text within the cap is kept. Of a longer one a suffix is, over the cap by at most the bytes looked back on, and
      within it, short by the bytes of one character at most, if no escape sequence was found open. */
  lemma KeptIsABoundedSuffix(t: seq<Byte>)
    requires TextLike(t) && Cut(t).Text?
    ensures IsSuffix(Cut(t).text, t) && |Cut(t).text| <= CAP + LOOKBACK
    ensures |t| <= 400000 ==> Cut(t).text == t
    ensures |t| > CAP && OpenEscape(t, From(t), Start(t)).None? ==>
              var i := |t| - |Cut(t).text|;
              && CAP - 3 <= |Cut(t).text| <= CAP && !IsContinuation(t[i])
              && forall j | |t| - CAP <= j < i :: IsContinuation(t[j])
  {
    if |t| > CAP {
      BoundaryIsNear(t, |t| - CAP);
      assert |t[Start(t)..]| == |t| - Start(t);
    }
  }

  /** A sequence found open is kept whole, and so is its line as far as it was looked at. */
  lemma OpenSequenceIsKept(t: seq<Byte>)
    requires |t| > CAP && Cut(t).Text? && OpenEscape(t, From(t), Start(t)).Some?
    ensures
      var e := OpenEscape(t, From(t), Start(t)).value;
      var kept := Cut(t).text;
      && |t| - |kept| <= e && kept[e - (|t| - |kept|)..] == t[e..]
      && (|t| - |kept| == From(t) || t[|t| - |kept| - 1] == NEWLINE)
      && forall i | |t| - |kept| <= i <= e :: t[i] != NEWLINE
  {
  }

  /** A control sequence as ECMA-48 section 5.4 has it, begun at `e` and not finished before `hi`: its introducer, and
      then parameter and intermediate bytes only. */
  ghost predicate Unfinished(t: seq<Byte>, e: nat, hi: nat)
    requires hi <= |t|
  {
    && e < hi && t[e] == ESC && (e + 1 < hi ==> t[e + 1] == BRACKET)
    && forall i | e + 1 < i < hi :: 0x20 <= t[i] <= 0x3F
  }

  /** One that is finished by the byte at `f`, with no other escape before `hi`. The final byte may not be `[`, which
      the scan takes for an introducer. */
  ghost predicate Complete(t: seq<Byte>, e: nat, f: nat, hi: nat)
    requires hi <= |t|
  {
    && f < hi && Unfinished(t, e, f) && e + 1 < f && Terminates(t[f])
    && forall i | f < i < hi :: t[i] != ESC
  }

  lemma UnfinishedIsOpen(t: seq<Byte>, lo: nat, hi: nat, e: nat)
    requires lo <= hi <= |t| && Unfinished(t, e, hi)
    ensures OpenEscape(t, lo, hi) == if lo <= e then Some(e) else None
  {
    if lo <= e {
      assert OpensAt(t, lo, hi, e);
    } else {
      assert forall x :: !OpensAt(t, lo, hi, x);
    }
  }

  lemma CompleteIsNotOpen(t: seq<Byte>, lo: nat, hi: nat, e: nat, f: nat)
    requires lo <= e < hi <= |t| && Complete(t, e, f, hi)
    ensures OpenEscape(t, lo, hi) == None
  {
    forall x: nat ensures !OpensAt(t, lo, hi, x) {
      assert x > e ==> x >= hi || t[x] != ESC;
      assert x <= e ==> !(x < f < hi && !Terminates(t[f]));
    }
  }

  /** A control sequence that the cut would split is kept whole if and only if it began among the bytes looked back on;
      a longer one loses its head. One that is complete before the cut keeps nothing back. */
  lemma SplitSequenceIsKept(t: seq<Byte>, e: nat)
    requires |t| > CAP && Cut(t).Text? && Unfinished(t, e, Start(t))
    ensures |t| - |Cut(t).text| <= e <==> From(t) <= e
    ensures From(t) > e ==> Cut(t).text == t[Start(t)..]
  {
    UnfinishedIsOpen(t, From(t), Start(t), e);
  }

  lemma CompleteSequenceKeepsNothingBack(t: seq<Byte>, e: nat, f: nat)
    requires |t| > CAP && From(t) <= e < Start(t) && Complete(t, e, f, Start(t))
    ensures Cut(t) == Text(t[Start(t)..])
  {
    CompleteIsNotOpen(t, From(t), Start(t), e, f);
  }

  /** A text with such a longer sequence: forty bytes of it, from the escape on, are cut off. */
  lemma LongSequenceIsSplit() returns (t: seq<Byte>)
    ensures TextLike(t) && |t| > CAP && Start(t) == 100 && Unfinished(t, 60, 100) && Cut(t) == Text(t[100..])
  {
    t := seq(CAP + 100, (i: nat) =>
      if i == 60 then ESC else if i == 61 then BRACKET else if 61 < i < 100 then 48 else 97);
    assert forall i | 0 <= i < |t| :: FitsAt(t, i);
    assert IsBoundary(t, 100);
    UnfinishedIsOpen(t, 68, 100, 60);
  }

  /** The slice panics exactly when a sequence is open, its line began before the bytes looked back on, and the first
      of these bytes continues a character. */
  lemma PanicsExactlyWhen(t: seq<Byte>)
    requires TextLike(t)
    ensures
      Cut(t).Panics? <==>
        && |t| > CAP && OpenEscape(t, From(t), Start(t)).Some?
        && IsContinuation(t[From(t)])
        && forall i | From(t) <= i < Start(t) && i <= OpenEscape(t, From(t), Start(t)).value :: t[i] != NEWLINE
  {
    if |t| > CAP && OpenEscape(t, From(t), Start(t)).Some? {
      var lo, e := From(t), OpenEscape(t, From(t), Start(t)).value;
      var i := LineStart(t, lo, e);
      if i > lo {
        AfterNewline(t, i - 1);
      } else {
        assert lo < |t| && (lo == 0 ==> FitsAt(t, 0));
      }
    }
  }

  /** Plain text with one accented letter and an escape byte, without a newline. */
  function Unlucky(): seq<Byte> {
    seq(CAP + 100, (i: nat) => if i == 67 then 0xC3 else if i == 68 then 0xA9 else if i == 99 then ESC else 97)
  }

  lemma UnluckyIsTextLike()
    ensures TextLike(Unlucky())
  {
    var t := Unlucky();
    forall i | 0 <= i < |t| ensures FitsAt(t, i) {
      assert i + 1 < |t| ==> !(IsContinuation(t[i]) && IsContinuation(t[i + 1]));
      assert i == 68 ==> t[67] == 0xC3;
    }
  }

  lemma UnluckyIsOneLine()
    ensures LastLines(Unlucky()) == Unlucky()
  {
    var t := Unlucky();
    assert NEWLINE !in t;
    Absent(t);
    assert |Lines(t)| == 1;
  }

  lemma UnluckyIsOpen()
    ensures Start(Unlucky()) == 100 && From(Unlucky()) == 68 && OpenEscape(Unlucky(), 68, 100) == Some(99)
  {
    var t := Unlucky();
    assert IsBoundary(t, 100);
    assert OpensAt(t, 68, 100, 99);
  }

  lemma UnluckyTextPanics()
    ensures TextLike(Unlucky()) && LastLines(Unlucky()) == Unlucky() && Cut(Unlucky()) == Panics
  {
    UnluckyIsTextLike();
    UnluckyIsOneLine();
    UnluckyIsOpen();
    PanicsExactlyWhen(Unlucky());
  }
}
