/** Text as the program splits and reads it: Unicode white space, words, and decimal numbers. */
module Text {
  import opened Common

  /** The characters with the Unicode property White_Space. */
  predicate IsWhite(c: char) {
    || '\U{0009}' <= c <= '\U{000D}' || c == ' ' || c == '\U{0085}' || c == '\U{00A0}' || c == '\U{1680}'
    || '\U{2000}' <= c <= '\U{200A}' || c == '\U{2028}' || c == '\U{2029}' || c == '\U{202F}' || c == '\U{205F}'
    || c == '\U{3000}'
  }

  function SkipWhite(s: string): (r: string)
    ensures |r| <= |s| && (r != "" ==> !IsWhite(r[0]))
  {
    if s != "" && IsWhite(s[0]) then SkipWhite(s[1..]) else s
  }

  /** The longest prefix without white space. */
  function FirstWord(s: string): (r: string)
    ensures r <= s && (|r| < |s| ==> IsWhite(s[|r|])) && forall c | c in r :: !IsWhite(c)
  {
    if s == "" || IsWhite(s[0]) then "" else [s[0]] + FirstWord(s[1..])
  }

  function Words(s: string): seq<string>
    decreases |s|
  {
    var t := SkipWhite(s);
    if t == "" then [] else [FirstWord(t)] + Words(t[|FirstWord(t)|..])
  }

  predicate IsWord(s: string) {
    s != "" && forall c | c in s :: !IsWhite(c)
  }

  lemma {:induction false} FirstWordOf(w: string, rest: string)
    requires (forall c | c in w :: !IsWhite(c)) && (rest == "" || IsWhite(rest[0]))
    ensures FirstWord(w + rest) == w
  {
    if w == "" {
      assert w + rest == rest;
    } else {
      assert (w + rest)[1..] == w[1..] + rest;
      FirstWordOf(w[1..], rest);
    }
  }

  /** A word, then white space or the end, then more. */
  lemma WordsStep(w: string, rest: string)
    requires IsWord(w) && (rest == "" || IsWhite(rest[0]))
    ensures Words(w + rest) == [w] + Words(rest)
  {
    FirstWordOf(w, rest);
    assert w[0] in w;
    assert SkipWhite(w + rest) == w + rest;
    assert (w + rest)[|w|..] == rest;
  }

  lemma SkipOne(c: char, rest: string)
    requires IsWhite(c)
    ensures Words([c] + rest) == Words(rest)
  {
    assert ([c] + rest)[1..] == rest;
    assert SkipWhite([c] + rest) == SkipWhite(rest);
  }

  // ----- removing white space at both ends

  function DropLastWhite(s: string): (r: string)
    ensures r <= s && (r != "" ==> !IsWhite(r[|r| - 1]))
    ensures forall i | |r| <= i < |s| :: IsWhite(s[i])
  {
    if s != "" && IsWhite(s[|s| - 1]) then DropLastWhite(s[..|s| - 1]) else s
  }

  function Trim(s: string): string {
    DropLastWhite(SkipWhite(s))
  }

  predicate AllWhite(s: string) {
    forall c | c in s :: IsWhite(c)
  }

  lemma {:induction false} SkippedIsWhite(s: string) returns (before: string)
    ensures s == before + SkipWhite(s) && AllWhite(before)
  {
    before := "";
    if s != "" && IsWhite(s[0]) {
      var rest := SkippedIsWhite(s[1..]);
      before := [s[0]] + rest;
    }
  }

  /** Trimming takes away white space only, before and after, and all of it. */
  lemma TrimTakesWhiteEnds(s: string) returns (before: string, after: string)
    ensures s == before + Trim(s) + after && AllWhite(before) && AllWhite(after)
    ensures Trim(s) != "" ==> !IsWhite(Trim(s)[0]) && !IsWhite(Trim(s)[|Trim(s)| - 1])
  {
    before := SkippedIsWhite(s);
    var t := SkipWhite(s);
    after := t[|Trim(s)|..];
    assert forall c | c in after :: IsWhite(c);
    assert t == Trim(s) + after && before + (Trim(s) + after) == before + Trim(s) + after;
  }

  // ----- parts

  /** The parts of a text between the separators. */
  function Parts(s: string, at: char): (r: seq<string>)
    ensures r != []
  {
    if s == "" then [""]
    else
      var rest := Parts(s[1..], at);
      if s[0] == at then [""] + rest else [[s[0]] + rest[0]] + rest[1..]
  }

  lemma {:induction false} LastPart(part: string, at: char)
    requires at !in part
    ensures Parts(part, at) == [part]
  {
    if part != "" {
      assert part[0] in part;
      LastPart(part[1..], at);
      assert [part[0]] + part[1..] == part;
    }
  }

  lemma {:induction false} FirstPart(part: string, at: char, rest: string)
    requires at !in part
    ensures Parts(part + ([at] + rest), at) == [part] + Parts(rest, at)
  {
    if part == "" {
      assert part + ([at] + rest) == [at] + rest && ([at] + rest)[1..] == rest;
    } else {
      assert part[0] in part;
      var all := part + ([at] + rest);
      assert all[1..] == part[1..] + ([at] + rest);
      FirstPart(part[1..], at, rest);
      var tail := Parts(all[1..], at);
      assert tail[0] == part[1..] && tail[1..] == Parts(rest, at);
      assert [part[0]] + part[1..] == part;
    }
  }

  // ----- decimal numbers

  predicate IsDigit(c: char) {
    '0' <= c <= '9'
  }

  function Value(digits: string): nat
    requires forall c | c in digits :: IsDigit(c)
  {
    if digits == "" then 0
    else
      var n := |digits| - 1;
      assert digits[n] in digits && IsDigit(digits[n]);
      Value(digits[..n]) * 10 + (digits[n] as int - '0' as int)
  }

  /** An unsigned number below `limit`: digits, perhaps after a plus sign. */
  function ParseBelow(s: string, limit: nat): Option<nat> {
    var digits := if s != "" && s[0] == '+' then s[1..] else s;
    if digits == "" || exists c | c in digits :: !IsDigit(c) then None
    else if Value(digits) < limit then Some(Value(digits)) else None
  }

  function Decimal(n: nat): (r: string)
    ensures r != "" && forall c | c in r :: IsDigit(c)
  {
    var last := ('0' as int + n % 10) as char;
    if n < 10 then [last] else Decimal(n / 10) + [last]
  }

  lemma {:induction false} ValueOfDecimal(n: nat)
    ensures Value(Decimal(n)) == n
  {
    if n >= 10 {
      ValueOfDecimal(n / 10);
      var d := Decimal(n);
      assert d[..|d| - 1] == Decimal(n / 10);
    }
  }

  /** Leading zeros do not count. */
  lemma {:induction false} LeadingZero(digits: string)
    requires forall c | c in digits :: IsDigit(c)
    ensures (forall c | c in "0" + digits :: IsDigit(c)) && Value("0" + digits) == Value(digits)
  {
    var all := "0" + digits;
    assert forall c | c in all :: c == '0' || c in digits;
    if digits != "" {
      var n := |digits| - 1;
      assert forall c | c in digits[..n] :: c in digits;
      LeadingZero(digits[..n]);
      assert all[..n + 1] == "0" + digits[..n];
    } else {
      assert all[..0] == "";
    }
  }

  /** What is read is one or more digits, perhaps after a plus sign, of a value below the limit; nothing else is. */
  lemma ParsedExactly(s: string, limit: nat, v: nat)
    ensures ParseBelow(s, limit) == Some(v) <==>
              exists digits :: (s == digits || s == "+" + digits) && IsNumber(digits, v) && v < limit
  {
    var digits := if s != "" && s[0] == '+' then s[1..] else s;
    assert s == digits || s == "+" + digits;
    if ParseBelow(s, limit) == Some(v) {
      assert IsNumber(digits, v);
    }
    forall d | (s == d || s == "+" + d) && IsNumber(d, v) && v < limit ensures ParseBelow(s, limit) == Some(v) {
      assert d[0] in d && IsDigit(d[0]);
      assert d == digits;
    }
  }

  ghost predicate IsNumber(digits: string, v: nat) {
    digits != "" && (forall c | c in digits :: IsDigit(c)) && Value(digits) == v
  }

  lemma ParseDecimal(n: nat, limit: nat)
    ensures ParseBelow(Decimal(n), limit) == if n < limit then Some(n) else None
  {
    ValueOfDecimal(n);
    var d := Decimal(n);
    assert d[0] in d;
  }
}
