/** The argument tokenizer of the line protocol: words, quoted words and `--` flags. */
module Args {
  import opened Common

  // ----- tokens

  function SkipSpaces(s: string): (r: string)
    ensures |r| <= |s| && (r != "" ==> r[0] != ' ')
  {
    if s != "" && s[0] == ' ' then SkipSpaces(s[1..]) else s
  }

  /** The part before the first `stop`, or everything. */
  function Until(s: string, stop: char): (r: string)
    ensures r <= s && stop !in r && (|r| < |s| ==> s[|r|] == stop)
  {
    if s == "" || s[0] == stop then "" else [s[0]] + Until(s[1..], stop)
  }

  /** What follows a quoted word of length `n`: the closing quote, if there is one, is skipped. */
  function AfterQuoted(s: string, n: nat): string
    requires n <= |s|
  {
    if n < |s| then s[n + 1..] else ""
  }

  function Tokens(s: string): seq<string>
    decreases |s|
  {
    var t := SkipSpaces(s);
    if t == "" then []
    else if t[0] == '"' then
      var word := Until(t[1..], '"');
      [word] + Tokens(AfterQuoted(t[1..], |word|))
    else
      var word := Until(t, ' ');
      [word] + Tokens(t[|word|..])
  }

  // ----- arguments and flags

  datatype Parsed = Parsed(args: seq<string>, flags: map<string, string>)

  predicate IsFlag(token: string) {
    "--" <= token
  }

  /** The key and the value of a flag: the value is empty if there is no equals sign. */
  function Split(flag: string): (string, string) {
    var key := Until(flag, '=');
    (key, if |key| < |flag| then flag[|key| + 1..] else "")
  }

  function Add(p: Parsed, token: string): Parsed {
    if IsFlag(token) then
      var (key, value) := Split(token[2..]);
      p.(flags := p.flags[key := value])
    else p.(args := p.args + [token])
  }

  function AddAll(p: Parsed, tokens: seq<string>): Parsed
    decreases |tokens|
  {
    if tokens == [] then p else AddAll(Add(p, tokens[0]), tokens[1..])
  }

  const NOTHING := Parsed([], map[])

  function Parse(s: string): Parsed {
    AddAll(NOTHING, Tokens(s))
  }

  // ----- the code

  /** The characters still to be read, as a peekable iterator gives them. */
  class Chars {
    var rest: string

    constructor (rest: string)
      ensures this.rest == rest
    {
      this.rest := rest;
    }

    function Peek(): Option<char>
      reads this
    {
      HeadOpt(rest)
    }

    method Next()
      requires rest != ""
      modifies this
      ensures rest == old(rest)[1..]
    {
      rest := rest[1..];
    }

    method DropSpaces()
      modifies this
      ensures rest == SkipSpaces(old(rest))
    {
      while Peek() == Some(' ')
        invariant SkipSpaces(rest) == SkipSpaces(old(rest))
        decreases |rest|
      {
        Next();
      }
    }

    /** Reads up to `stop`, which stays unread. */
    method TakeUntil(stop: char) returns (token: string)
      modifies this
      ensures token == Until(old(rest), stop) && rest == old(rest)[|token|..]
    {
      token := "";
      while rest != "" && Peek() != Some(stop)
        invariant old(rest) == token + rest && Until(old(rest), stop) == token + Until(rest, stop)
        decreases |rest|
      {
        UntilFurther(old(rest), token, rest, stop);
        token := token + [rest[0]];
        Next();
      }
    }

    /** Reads one token, quoted or not. */
    method TakeToken() returns (token: string)
      requires rest != "" && rest[0] != ' '
      modifies this
      ensures |rest| < |old(rest)| && Tokens(old(rest)) == [token] + Tokens(rest)
    {
      if Peek() == Some('"') {
        Next();
        token := TakeUntil('"');
        if Peek() == Some('"') {
          Next();
        }
      } else {
        token := TakeUntil(' ');
      }
    }
  }

  lemma Shift(a: string, c: char, b: string)
    ensures a + ([c] + b) == (a + [c]) + b
  {
  }

  /** One character further, with `token` taken so far. */
  lemma UntilFurther(all: string, token: string, rest: string, stop: char)
    requires rest != "" && rest[0] != stop
    requires all == token + rest && Until(all, stop) == token + Until(rest, stop)
    ensures all == (token + [rest[0]]) + rest[1..]
    ensures Until(all, stop) == (token + [rest[0]]) + Until(rest[1..], stop)
  {
    var c, more := rest[0], rest[1..];
    assert rest == [c] + more;
    Shift(token, c, more);
    Shift(token, c, Until(more, stop));
  }

  lemma AddNext(p: Parsed, token: string, rest: seq<string>)
    ensures AddAll(p, [token] + rest) == AddAll(Add(p, token), rest)
  {
    assert ([token] + rest)[1..] == rest;
  }

  lemma SpacesGiveNoToken(s: string)
    ensures Tokens(SkipSpaces(s)) == Tokens(s)
  {
    var t := SkipSpaces(s);
    assert SkipSpaces(t) == t;
  }

  method ParseArgs(input: string) returns (args: seq<string>, flags: map<string, string>)
    ensures Parsed(args, flags) == Parse(input)
  {
    args, flags := [], map[];
    var chars := new Chars(input);
    while chars.Peek().Some?
      invariant AddAll(Parsed(args, flags), Tokens(chars.rest)) == Parse(input)
      decreases |chars.rest|
    {
      SpacesGiveNoToken(chars.rest);
      chars.DropSpaces();
      if chars.Peek().None? {
        break;
      }
      var token := chars.TakeToken();
      AddNext(Parsed(args, flags), token, Tokens(chars.rest));
      if IsFlag(token) {
        var (key, value) := Split(token[2..]);
        flags := flags[key := value];
      } else {
        args := args + [token];
      }
    }
  }

  // ----- printing and parsing back

  /** A token as it may be written: quoted if it has no quote, bare if it has no space and
      does not begin with a quote. */
  datatype Printed = Quoted(token: string) | Bare(token: string)

  predicate Printable(p: Printed) {
    match p
    case Quoted(t) => '"' !in t
    case Bare(t) => t != "" && ' ' !in t && t[0] != '"'
  }

  function Print(p: Printed): string {
    match p
    case Quoted(t) => "\"" + t + "\""
    case Bare(t) => t
  }

  function PrintAll(ps: seq<Printed>): string {
    if ps == [] then "" else Print(ps[0]) + " " + PrintAll(ps[1..])
  }

  lemma {:induction false} UntilOf(word: string, rest: string, stop: char)
    requires stop !in word && (rest == "" || rest[0] == stop)
    ensures Until(word + rest, stop) == word
  {
    if word == "" {
      assert word + rest == rest;
    } else {
      assert word[0] in word;
      assert (word + rest)[1..] == word[1..] + rest;
      UntilOf(word[1..], rest, stop);
    }
  }

  lemma QuotedComesBack(word: string, rest: string)
    requires '"' !in word
    ensures Tokens(['"'] + (word + (['"'] + rest))) == [word] + Tokens(rest)
  {
    var tail := ['"'] + rest;
    var s := ['"'] + (word + tail);
    assert s[1..] == word + tail && SkipSpaces(s) == s;
    UntilOf(word, tail, '"');
    AfterClosingQuote(word, rest);
  }

  lemma AfterClosingQuote(word: string, rest: string)
    ensures AfterQuoted(word + (['"'] + rest), |word|) == rest
  {
    assert (word + (['"'] + rest))[|word| + 1..] == rest;
  }

  lemma BareComesBack(word: string, rest: string)
    requires word != "" && ' ' !in word && word[0] != '"' && (rest == "" || rest[0] == ' ')
    ensures Tokens(word + rest) == [word] + Tokens(rest)
  {
    assert word[0] in word;
    UntilOf(word, rest, ' ');
    assert SkipSpaces(word + rest) == word + rest;
    assert (word + rest)[|word|..] == rest;
  }

  lemma TokenComesBack(p: Printed, rest: string)
    requires Printable(p)
    ensures Tokens(Print(p) + " " + rest) == [p.token] + Tokens(" " + rest)
  {
    match p
    case Quoted(t) =>
      assert Print(p) + " " + rest == ['"'] + (t + (['"'] + (" " + rest)));
      QuotedComesBack(t, " " + rest);
    case Bare(t) =>
      assert t + " " + rest == t + (" " + rest);
      BareComesBack(t, " " + rest);
  }

  lemma OneSpace(rest: string)
    ensures Tokens(" " + rest) == Tokens(rest)
  {
    assert (" " + rest)[1..] == rest;
  }

  function TokensOf(ps: seq<Printed>): seq<string> {
    if ps == [] then [] else [ps[0].token] + TokensOf(ps[1..])
  }

  lemma {:induction false} TokensComeBack(ps: seq<Printed>)
    requires forall i | 0 <= i < |ps| :: Printable(ps[i])
    ensures Tokens(PrintAll(ps)) == TokensOf(ps)
  {
    if ps != [] {
      TokenComesBack(ps[0], PrintAll(ps[1..]));
      OneSpace(PrintAll(ps[1..]));
      TokensComeBack(ps[1..]);
    }
  }

  /** A quote that is never closed takes in everything to the end. */
  lemma UnclosedQuote(word: string)
    requires '"' !in word
    ensures Tokens("\"" + word) == [word]
  {
    var t := "\"" + word;
    assert t[1..] == word && word + "" == word;
    UntilOf(word, "", '"');
    assert Tokens("") == [];
  }

  /** A flag without an equals sign has an empty value. */
  lemma FlagWithoutValue(p: Parsed, key: string)
    requires '=' !in key
    ensures Add(p, "--" + key) == p.(flags := p.flags[key := ""])
  {
    assert ("--" + key)[2..] == key && key + "" == key;
    UntilOf(key, "", '=');
  }

  /** What a caller means: an argument, or a flag with its value. */
  datatype Item = Arg(text: string) | Flag(key: string, value: string)

  /** An argument that does not look like a flag; a key without an equals sign. */
  predicate Sayable(item: Item) {
    match item
    case Arg(text) => !IsFlag(text)
    case Flag(key, _) => '=' !in key
  }

  function TokenFor(item: Item): string {
    match item
    case Arg(text) => text
    case Flag(key, value) => "--" + key + "=" + value
  }

  function ArgsOf(items: seq<Item>): seq<string> {
    if items == [] then []
    else (if items[0].Arg? then [items[0].text] else []) + ArgsOf(items[1..])
  }

  /** The flags, later ones replacing earlier ones with the same key. */
  function FlagsOf(items: seq<Item>): map<string, string> {
    if items == [] then map[]
    else
      var n := |items| - 1;
      if items[n].Flag? then FlagsOf(items[..n])[items[n].key := items[n].value] else FlagsOf(items[..n])
  }

  lemma FlagIsRead(key: string, value: string)
    requires '=' !in key
    ensures IsFlag(TokenFor(Flag(key, value))) && Split(TokenFor(Flag(key, value))[2..]) == (key, value)
  {
    var tail := "=" + value;
    var token := TokenFor(Flag(key, value));
    assert token[2..] == key + tail;
    UntilOf(key, tail, '=');
    assert (key + tail)[|key| + 1..] == value;
  }

  ghost predicate Says(ps: seq<Printed>, items: seq<Item>) {
    && |ps| == |items|
    && forall i | 0 <= i < |ps| :: Printable(ps[i]) && Sayable(items[i]) && ps[i].token == TokenFor(items[i])
  }

  lemma {:induction false} ItemsAreAdded(ps: seq<Printed>, items: seq<Item>)
    requires Says(ps, items)
    ensures AddAll(NOTHING, TokensOf(ps)) == Parsed(ArgsOf(items), FlagsOf(items))
  {
    if ps != [] {
      var n := |ps| - 1;
      ItemsAreAdded(ps[..n], items[..n]);
      TokensOfLast(ps);
      AddLast(NOTHING, TokensOf(ps[..n]), ps[n].token);
      ArgsOfLast(items);
      if items[n].Flag? {
        FlagIsRead(items[n].key, items[n].value);
      }
    }
  }

  lemma {:induction false} TokensOfLast(ps: seq<Printed>)
    requires ps != []
    ensures TokensOf(ps) == TokensOf(ps[..|ps| - 1]) + [ps[|ps| - 1].token]
  {
    if |ps| > 1 {
      TokensOfLast(ps[1..]);
      assert ps[1..][..|ps| - 2] == ps[..|ps| - 1][1..];
    }
  }

  lemma {:induction false} ArgsOfLast(items: seq<Item>)
    requires items != []
    ensures
      var last := items[|items| - 1];
      ArgsOf(items) == ArgsOf(items[..|items| - 1]) + if last.Arg? then [last.text] else []
  {
    if |items| > 1 {
      ArgsOfLast(items[1..]);
      assert items[1..][..|items| - 2] == items[..|items| - 1][1..];
    }
  }

  lemma {:induction false} AddLast(p: Parsed, tokens: seq<string>, token: string)
    ensures AddAll(p, tokens + [token]) == Add(AddAll(p, tokens), token)
    decreases |tokens|
  {
    if tokens == [] {
      assert ([] + [token])[1..] == [];
      assert [] + [token] == [token];
    } else {
      assert (tokens + [token])[1..] == tokens[1..] + [token];
      AddLast(Add(p, tokens[0]), tokens[1..], token);
    }
  }

  /** Arguments and flags, each written quoted or bare, are read back: the arguments in order,
      the last value of each flag. */
  lemma ArgumentsComeBack(ps: seq<Printed>, items: seq<Item>)
    requires Says(ps, items)
    ensures Parse(PrintAll(ps)) == Parsed(ArgsOf(items), FlagsOf(items))
  {
    TokensComeBack(ps);
    ItemsAreAdded(ps, items);
  }
}
