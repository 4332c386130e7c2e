/** Stripping comments from settings files: JSON with line and block comments. */
module Jsonc {
  import opened Common

  /** Where the text stands: in code, in a string (after a backslash or not), between the two characters that open a
      comment, or in a comment; a block comment remembers whether its last character was a star. */
  datatype State = Code | InString | Escaped | OpensLine | OpensBlock | InLine | InBlock(star: bool)

  /** One character: the state after it, and whether it is copied. */
  function Step(st: State, c: char, next: Option<char>): (State, bool) {
    match st
    case Code =>
      if c == '"' then (InString, true)
      else if c == '/' && next == Some('/') then (OpensLine, false)
      else if c == '/' && next == Some('*') then (OpensBlock, false)
      else (Code, true)
    case InString => (if c == '\\' then Escaped else if c == '"' then Code else InString, true)
    case Escaped => (InString, true)
    case OpensLine => (InLine, false)
    case OpensBlock => (InBlock(false), false)
    case InLine => if c == '\n' then (Code, true) else (InLine, false)
    case InBlock(star) => if star && c == '/' then (Code, false) else (InBlock(c == '*'), c == '\n')
  }

  function Copied(c: char, copy: bool): string {
    if copy then [c] else ""
  }

  /** What is left of `s`, read from state `st` on. */
  function Strip(s: string, st: State): string {
    if s == "" then ""
    else
      var (after, copy) := Step(st, s[0], HeadOpt(s[1..]));
      Copied(s[0], copy) + Strip(s[1..], after)
  }

  // ----- the code

  lemma OneStep(s: string, i: nat, st: State)
    requires i < |s|
    ensures
      var (after, copy) := Step(st, s[i], HeadOpt(s[i + 1..]));
      Strip(s[i..], st) == Copied(s[i], copy) + Strip(s[i + 1..], after)
  {
    assert s[i..][1..] == s[i + 1..];
  }

  lemma Head(c: char, rest: string, st: State)
    ensures
      var (after, copy) := Step(st, c, HeadOpt(rest));
      Strip([c] + rest, st) == Copied(c, copy) + Strip(rest, after)
  {
    assert ([c] + rest)[1..] == rest;
  }

  /** One character further, with `out` copied so far. */
  lemma StepOn(all: string, out: string, s: string, i: nat, st: State)
    requires i < |s| && all == out + Strip(s[i..], st)
    ensures
      var (after, copy) := Step(st, s[i], HeadOpt(s[i + 1..]));
      all == (out + Copied(s[i], copy)) + Strip(s[i + 1..], after)
  {
    OneStep(s, i, st);
    var (after, copy) := Step(st, s[i], HeadOpt(s[i + 1..]));
    Assoc(out, Copied(s[i], copy), Strip(s[i + 1..], after));
  }

  /** Consumes a line comment, its newline included. */
  method SkipLine(s: string, from: nat) returns (i: nat, out: string)
    requires from <= |s|
    ensures from <= i <= |s| && Strip(s[from..], InLine) == out + Strip(s[i..], Code)
  {
    i, out := from, "";
    while i < |s|
      invariant from <= i <= |s| && out == "" && Strip(s[from..], InLine) == Strip(s[i..], InLine)
    {
      var ch := s[i];
      OneStep(s, i, InLine);
      i := i + 1;
      if ch == '\n' {
        out := "\n";
        return;
      }
    }
  }

  lemma BlockStepOn(all: string, out: string, s: string, i: nat, star: bool)
    requires i < |s| && all == out + Strip(s[i..], InBlock(star))
    ensures
      var ch, later := s[i], s[i + 1..];
      all ==
        if star && ch == '/' then out + Strip(later, Code)
        else (if ch == '\n' then out + [ch] else out) + Strip(later, InBlock(ch == '*'))
  {
    StepOn(all, out, s, i, InBlock(star));
    assert out + "" == out;
  }

  /** Consumes a block comment, keeping its newlines. */
  method SkipBlock(s: string, from: nat) returns (i: nat, out: string)
    requires from <= |s|
    ensures from <= i <= |s| && Strip(s[from..], InBlock(false)) == out + Strip(s[i..], Code)
  {
    i, out := from, "";
    var prev := '\0';
    ghost var all := Strip(s[from..], InBlock(false));
    while i < |s|
      invariant from <= i <= |s| && all == out + Strip(s[i..], InBlock(prev == '*'))
    {
      var ch := s[i];
      BlockStepOn(all, out, s, i, prev == '*');
      i := i + 1;
      if prev == '*' && ch == '/' {
        return;
      }
      if ch == '\n' {
        out := out + [ch];
      }
      prev := ch;
    }
  }

  function StateOf(inString: bool): State {
    if inString then InString else Code
  }

  /** What one character read as code leads to, the comment it opens included. */
  method ReadCode(s: string, at: nat) returns (i: nat, out: string, inString: bool)
    requires at < |s|
    ensures at < i <= |s| && Strip(s[at..], Code) == out + Strip(s[i..], StateOf(inString))
  {
    var c := s[at];
    OneStep(s, at, Code);
    i, out, inString := at + 1, [c], false;
    if c == '"' {
      inString := true;
    } else if c == '/' && i < |s| && s[i] == '/' {
      OneStep(s, i, OpensLine);
      i, out := SkipLine(s, i + 1);
    } else if c == '/' && i < |s| && s[i] == '*' {
      OneStep(s, i, OpensBlock);
      i, out := SkipBlock(s, i + 1);
    }
  }

  /** What one character read within a string leads to, with the character it escapes. */
  method ReadString(s: string, at: nat) returns (i: nat, out: string, inString: bool)
    requires at < |s|
    ensures at < i <= |s| && Strip(s[at..], InString) == out + Strip(s[i..], StateOf(inString))
  {
    var c := s[at];
    OneStep(s, at, InString);
    i, out, inString := at + 1, [c], true;
    if c == '\\' {
      if i < |s| {
        OneStep(s, i, Escaped);
        i, out := i + 1, [c, s[i]];
      }
    } else if c == '"' {
      inString := false;
    }
  }

  method StripJsoncComments(s: string) returns (out: string)
    ensures out == Strip(s, Code)
  {
    out := "";
    var i, inString := 0, false;
    ghost var all := Strip(s, Code);
    assert s[0..] == s;
    while i < |s|
      invariant i <= |s| && all == out + Strip(s[i..], StateOf(inString))
    {
      var more;
      if inString {
        i, more, inString := ReadString(s, i);
      } else {
        i, more, inString := ReadCode(s, i);
      }
      Assoc(out, more, Strip(s[i..], StateOf(inString)));
      out := out + more;
    }
  }

  // ----- stripping again changes nothing

  /** The state in which the result of reading from `st` is read again. */
  function Settled(st: State): State {
    if st == InString || st == Escaped then st else Code
  }

  lemma {:induction false} StripTwice(s: string, st: State)
    ensures Strip(Strip(s, st), Settled(st)) == Strip(s, st)
  {
    if s != "" {
      var (after, copy) := Step(st, s[0], HeadOpt(s[1..]));
      var rest := Strip(s[1..], after);
      StripTwice(s[1..], after);
      if copy {
        KeptAgain(s, st);
        var out := [s[0]] + rest;
        assert out[1..] == rest && Strip(s, st) == out;
        assert Strip(out, Settled(st)) == [s[0]] + Strip(rest, Settled(after));
      } else {
        assert Strip(s, st) == rest && Settled(after) == Settled(st);
      }
    }
  }

  /** A character that is copied is copied again: a slash kept in code is followed, in the result too, by no character
      that would open a comment. */
  lemma KeptAgain(s: string, st: State)
    requires s != "" && Step(st, s[0], HeadOpt(s[1..])).1
    ensures
      var (after, copy) := Step(st, s[0], HeadOpt(s[1..]));
      Step(Settled(st), s[0], HeadOpt(Strip(s[1..], after))) == (Settled(after), true)
  {
    if s[0] == '/' && st == Code {
      assert s[1..] != "" ==> HeadOpt(Strip(s[1..], Code)) == HeadOpt(s[1..]);
    }
  }

  lemma Idempotent(s: string)
    ensures Strip(Strip(s, Code), Code) == Strip(s, Code)
  {
    StripTwice(s, Code);
  }

  // ----- strings

  /** The rest of a string literal after its opening quote: escapes count as pairs, and the last quote closes it. */
  predicate ClosesString(q: string) {
    if q == "" then false
    else if q[0] == '"' then |q| == 1
    else if q[0] == '\\' then |q| >= 2 && ClosesString(q[2..])
    else ClosesString(q[1..])
  }

  lemma StringCharacter(c: char, rest: string)
    ensures Strip([c] + rest, InString)
         == [c] + Strip(rest, if c == '\\' then Escaped else if c == '"' then Code else InString)
    ensures Strip([c] + rest, Escaped) == [c] + Strip(rest, InString)
  {
    Head(c, rest, InString);
    Head(c, rest, Escaped);
  }

  lemma EscapedCharacter(c: char, rest: string)
    ensures Strip(['\\', c] + rest, InString) == ['\\', c] + Strip(rest, InString)
  {
    StringCharacter('\\', [c] + rest);
    StringCharacter(c, rest);
    assert ['\\', c] + rest == ['\\'] + ([c] + rest);
    assert ['\\'] + ([c] + Strip(rest, InString)) == ['\\', c] + Strip(rest, InString);
  }

  /** `q` begins with `head`: what is copied of both parts is copied of the whole. */
  lemma CopiedAhead(head: string, q: string, rest: string, copied: string)
    requires head <= q && Strip(head + (q[|head|..] + rest), InString) == head + (q[|head|..] + copied)
    ensures Strip(q + rest, InString) == q + copied
  {
    var tail := q[|head|..];
    assert q == head + tail;
    Assoc(head, tail, rest);
    Assoc(head, tail, copied);
  }

  lemma {:induction false} StringTailIsCopied(q: string, rest: string)
    requires ClosesString(q)
    ensures Strip(q + rest, InString) == q + Strip(rest, Code)
    decreases |q|
  {
    if q[0] == '"' {
      StringCharacter('"', rest);
      assert q == ['"'];
    } else if q[0] == '\\' {
      var u := q[2..];
      StringTailIsCopied(u, rest);
      EscapedCharacter(q[1], u + rest);
      CopiedAhead(['\\', q[1]], q, rest, Strip(rest, Code));
    } else {
      var t := q[1..];
      StringTailIsCopied(t, rest);
      StringCharacter(q[0], t + rest);
      CopiedAhead([q[0]], q, rest, Strip(rest, Code));
    }
  }

  /** String literals are copied as they are, whatever they contain. */
  lemma StringsAreVerbatim(q: string, rest: string)
    requires ClosesString(q)
    ensures Strip("\"" + q + rest, Code) == "\"" + q + Strip(rest, Code)
  {
    Head('"', q + rest, Code);
    assert "\"" + q + rest == ['"'] + (q + rest);
    StringTailIsCopied(q, rest);
    assert ['"'] + (q + Strip(rest, Code)) == "\"" + q + Strip(rest, Code);
  }

  // ----- comments

  function OnlyNewlines(s: string): string {
    if s == "" then "" else (if s[0] == '\n' then "\n" else "") + OnlyNewlines(s[1..])
  }

  predicate HasEnd(body: string) {
    |body| >= 2 && ((body[0] == '*' && body[1] == '/') || HasEnd(body[1..]))
  }

  lemma BlockCharacter(c: char, rest: string, star: bool)
    requires !(star && c == '/')
    ensures Strip([c] + rest, InBlock(star)) == Copied(c, c == '\n') + Strip(rest, InBlock(c == '*'))
  {
    Head(c, rest, InBlock(star));
  }

  lemma {:induction false} BlockBody(body: string, tail: string, rest: string, star: bool)
    requires tail == "*/" + rest
    requires !HasEnd(body) && !(star && body != "" && body[0] == '/')
    ensures Strip(body + tail, InBlock(star)) == OnlyNewlines(body) + Strip(rest, Code)
  {
    if body == "" {
      BlockEnd(rest, star);
      assert body + tail == tail;
    } else {
      var c, more := body[0], body[1..];
      BlockBody(more, tail, rest, c == '*');
      BlockCharacter(c, more + tail, star);
      assert body + tail == [c] + (more + tail);
      Assoc(Copied(c, c == '\n'), OnlyNewlines(more), Strip(rest, Code));
      NewlinesHead(body);
    }
  }

  lemma NewlinesHead(s: string)
    requires s != ""
    ensures OnlyNewlines(s) == Copied(s[0], s[0] == '\n') + OnlyNewlines(s[1..])
  {
  }

  lemma BlockEnd(rest: string, star: bool)
    ensures Strip("*/" + rest, InBlock(star)) == Strip(rest, Code)
  {
    assert "*/" + rest == ['*'] + (['/'] + rest);
    Head('*', ['/'] + rest, InBlock(star));
    Head('/', rest, InBlock(true));
  }

  /** A block comment in code leaves its newlines only. */
  lemma BlockCommentIsRemoved(body: string, rest: string)
    requires !HasEnd(body)
    ensures Strip("/*" + body + "*/" + rest, Code) == OnlyNewlines(body) + Strip(rest, Code)
  {
    var s := "/*" + body + "*/" + rest;
    assert s[1..][1..] == body + ("*/" + rest);
    BlockBody(body, "*/" + rest, rest, false);
  }

  lemma {:induction false} LineBody(body: string, rest: string)
    requires '\n' !in body
    ensures Strip(body + "\n" + rest, InLine) == "\n" + Strip(rest, Code)
  {
    var s := body + "\n" + rest;
    if body == "" {
      assert s[1..] == rest;
    } else {
      assert body[0] in body;
      assert s[1..] == body[1..] + "\n" + rest;
      LineBody(body[1..], rest);
    }
  }

  /** A line comment in code leaves its newline only. */
  lemma LineCommentIsRemoved(body: string, rest: string)
    requires '\n' !in body
    ensures Strip("//" + body + "\n" + rest, Code) == "\n" + Strip(rest, Code)
  {
    var s := "//" + body + "\n" + rest;
    assert s[1..][1..] == body + "\n" + rest;
    LineBody(body, rest);
  }

  /** A comment that is never closed takes in everything to the end, and leaves its newlines only. */
  lemma {:induction false} UnclosedBody(body: string, star: bool)
    requires !HasEnd(body) && !(star && body != "" && body[0] == '/')
    ensures Strip(body, InBlock(star)) == OnlyNewlines(body)
  {
    if body != "" {
      BlockCharacter(body[0], body[1..], star);
      assert [body[0]] + body[1..] == body;
      UnclosedBody(body[1..], body[0] == '*');
    }
  }

  lemma UnclosedBlockComment(body: string)
    requires !HasEnd(body)
    ensures Strip("/*" + body, Code) == OnlyNewlines(body)
  {
    var all := "/*" + body;
    assert all[1..] == "*" + body && all[1..][1..] == body;
    UnclosedBody(body, false);
  }

  lemma {:induction false} UnclosedLine(body: string)
    requires '\n' !in body
    ensures Strip(body, InLine) == ""
  {
    if body != "" {
      UnclosedLine(body[1..]);
    }
  }

  lemma UnclosedLineComment(body: string)
    requires '\n' !in body
    ensures Strip("//" + body, Code) == ""
  {
    var all := "//" + body;
    assert all[1..] == "/" + body && all[1..][1..] == body;
    UnclosedLine(body);
  }

  // ----- code

  /** Code without quotes and slashes is copied as it is, whatever follows. */
  lemma {:induction false} CodeIsCopied(s: string, rest: string)
    requires '"' !in s && '/' !in s
    ensures Strip(s + rest, Code) == s + Strip(rest, Code)
  {
    if s == "" {
      assert s + rest == rest && s + Strip(rest, Code) == Strip(rest, Code);
    } else {
      assert s[0] in s;
      Head(s[0], s[1..] + rest, Code);
      assert [s[0]] + (s[1..] + rest) == s + rest;
      CodeIsCopied(s[1..], rest);
      assert [s[0]] + (s[1..] + Strip(rest, Code)) == s + Strip(rest, Code);
    }
  }

  /** A slash that opens no comment is copied. */
  lemma SlashIsCopied(rest: string)
    requires rest != "" ==> rest[0] != '/' && rest[0] != '*'
    ensures Strip("/" + rest, Code) == "/" + Strip(rest, Code)
  {
    Head('/', rest, Code);
  }

  /** A string literal that is never closed. */
  predicate StaysOpen(q: string) {
    if q == "" then true
    else if q[0] == '"' then false
    else if q[0] == '\\' then |q| < 2 || StaysOpen(q[2..])
    else StaysOpen(q[1..])
  }

  /** It is copied to the end. */
  lemma {:induction false} UnclosedStringIsCopied(q: string)
    requires StaysOpen(q)
    ensures Strip(q, InString) == q && Strip("\"" + q, Code) == "\"" + q
    decreases |q|
  {
    Head('"', q, Code);
    if q != "" {
      StringCharacter(q[0], q[1..]);
      assert [q[0]] + q[1..] == q;
      if q[0] == '\\' && |q| >= 2 {
        UnclosedStringIsCopied(q[2..]);
        EscapedCharacter(q[1], q[2..]);
        assert ['\\', q[1]] + q[2..] == q;
      } else if q[0] != '\\' {
        UnclosedStringIsCopied(q[1..]);
      }
    }
  }

  // ----- line numbers

  function Newlines(s: string): nat {
    if s == "" then 0 else (if s[0] == '\n' then 1 else 0) + Newlines(s[1..])
  }

  /** Whether the character at `i` is copied. */
  predicate Survives(s: string, st: State, i: nat)
    requires i < |s|
    decreases i
  {
    var (after, copy) := Step(st, s[0], HeadOpt(s[1..]));
    if i == 0 then copy else Survives(s[1..], after, i - 1)
  }

  /** How many characters before `i` are copied. */
  function Rank(s: string, st: State, i: nat): nat
    requires i <= |s|
    decreases i
  {
    if i == 0 then 0
    else
      var (after, copy) := Step(st, s[0], HeadOpt(s[1..]));
      (if copy then 1 else 0) + Rank(s[1..], after, i - 1)
  }

  /** A state that opens a comment is followed by the character that opened it. */
  predicate Fits(s: string, st: State) {
    (st == OpensLine ==> s != "" && s[0] == '/') && (st == OpensBlock ==> s != "" && s[0] == '*')
  }

  /** The character at `j` in `out` is the one at `i` in `s`, on the same line. */
  predicate SameLine(out: string, j: nat, s: string, i: nat)
    requires i < |s|
  {
    j < |out| && out[j] == s[i] && Newlines(out[..j]) == Newlines(s[..i])
  }

  lemma CountHead(c: char, s: string, i: nat)
    requires i <= |s|
    ensures Newlines(([c] + s)[..i + 1]) == (if c == '\n' then 1 else 0) + Newlines(s[..i])
  {
    assert ([c] + s)[..i + 1][1..] == s[..i];
  }

  /** Putting a character before both texts, or one that is no newline before the source only. */
  lemma SameLineCons(c: char, out: string, j: nat, s: string, i: nat)
    requires i < |s| && SameLine(out, j, s, i)
    ensures SameLine([c] + out, j + 1, [c] + s, i + 1)
    ensures c != '\n' ==> SameLine(out, j, [c] + s, i + 1)
  {
    CountHead(c, s, i);
    CountHead(c, out, j);
  }

  /** What the first character does to the rank of a later one. */
  lemma LineStep(s: string, st: State, i: nat)
    requires 0 < i < |s|
    requires
      var after := Step(st, s[0], HeadOpt(s[1..])).0;
      SameLine(Strip(s[1..], after), Rank(s[1..], after, i - 1), s[1..], i - 1)
    requires s[0] == '\n' ==> Step(st, s[0], HeadOpt(s[1..])).1
    ensures SameLine(Strip(s, st), Rank(s, st, i), s, i)
  {
    var (after, copy) := Step(st, s[0], HeadOpt(s[1..]));
    var rest := Strip(s[1..], after);
    SameLineCons(s[0], rest, Rank(s[1..], after, i - 1), s[1..], i - 1);
    assert s == [s[0]] + s[1..];
    assert Strip(s, st) == if copy then [s[0]] + rest else rest;
  }

  lemma {:induction false} LineIsKept(s: string, st: State, i: nat)
    requires i < |s| && Fits(s, st) && Survives(s, st, i)
    ensures SameLine(Strip(s, st), Rank(s, st, i), s, i)
    decreases i
  {
    if i > 0 {
      LineIsKept(s[1..], Step(st, s[0], HeadOpt(s[1..])).0, i - 1);
      LineStep(s, st, i);
    }
  }

  /** The survivors stay in order. */
  lemma {:induction false} RankGrows(s: string, st: State, i: nat, k: nat)
    requires i < k <= |s|
    ensures Rank(s, st, k) >= Rank(s, st, i) + if Survives(s, st, i) then 1 else 0
    decreases i
  {
    if i > 0 {
      RankGrows(s[1..], Step(st, s[0], HeadOpt(s[1..])).0, i - 1, k - 1);
    }
  }

  /** Nothing but survivors is copied. */
  lemma {:induction false} OnlySurvivorsAreCopied(s: string, st: State)
    ensures |Strip(s, st)| == Rank(s, st, |s|)
  {
    if s != "" {
      OnlySurvivorsAreCopied(s[1..], Step(st, s[0], HeadOpt(s[1..])).0);
    }
  }

  /** Every character that survives keeps its value and its line. */
  lemma SurvivorsKeepTheirLine(s: string, i: nat)
    requires i < |s| && Survives(s, Code, i)
    ensures
      var out, j := Strip(s, Code), Rank(s, Code, i);
      j < |out| && out[j] == s[i] && Newlines(out[..j]) == Newlines(s[..i])
  {
    LineIsKept(s, Code, i);
  }

  /** Every newline survives. */
  lemma {:induction false} NewlinesSurvive(s: string, st: State, i: nat)
    requires i < |s| && Fits(s, st) && s[i] == '\n'
    ensures Survives(s, st, i)
    decreases i
  {
    if i > 0 {
      NewlinesSurvive(s[1..], Step(st, s[0], HeadOpt(s[1..])).0, i - 1);
    }
  }
}
