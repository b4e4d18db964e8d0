/** Splitting an environment string into command-line flags (xla/parse_flags_from_env.cc). */
module FlagParser {

  const NUL: char := '\0'

  predicate IsSpace(c: char) { c == ' ' || c == '\t' || c == '\r' || c == '\n' }

  predicate IsAlnum(c: char) { '0' <= c <= '9' || 'A' <= c <= 'Z' || 'a' <= c <= 'z' }

  /** Accepted in a flag name. The terminating NUL of the C string "-_" matches as well. */
  predicate IsNameChar(c: char) { c == '-' || c == '_' || c == NUL || IsAlnum(c) }

  /** Opens a quoted value; here too the NUL of the searched C string matches. */
  predicate IsQuote(c: char) { c == '\'' || c == '"' || c == NUL }

  // ---- specification ----

  function SkipSpace(s: string): (t: string)
    ensures |t| <= |s| && (t == [] || !IsSpace(t[0]))
  {
    if s != [] && IsSpace(s[0]) then SkipSpace(s[1..]) else s
  }

  function NameLength(s: string): (n: nat)
    ensures n <= |s|
  {
    if s != [] && IsNameChar(s[0]) then 1 + NameLength(s[1..]) else 0
  }

  function WordLength(s: string): (n: nat)
    ensures n <= |s|
  {
    if s != [] && !IsSpace(s[0]) then 1 + WordLength(s[1..]) else 0
  }

  /** The value up to the closing quote, with backslashes resolved in double quotes only,
      and the text after it. */
  function Unquote(s: string, quote: char): (r: (string, string))
    ensures |r.1| <= |s|
  {
    if s == [] then ([], [])
    else if s[0] == quote then ([], s[1..])
    else if quote == '"' && s[0] == '\\' && |s| > 1 then
      var (value, rest) := Unquote(s[2..], quote);
      ([s[1]] + value, rest)
    else
      var (value, rest) := Unquote(s[1..], quote);
      ([s[0]] + value, rest)
  }

  /** A C string ends at its first NUL. */
  function CString(s: string): string {
    if s == [] || s[0] == NUL then [] else [s[0]] + CString(s[1..])
  }

  predicate StartsQuoted(t: string, e: nat) {
    e + 1 < |t| && t[e] == '=' && IsQuote(t[e + 1])
  }

  /** The flag at the start of `t` as an argument, and the text after it. */
  function FirstFlag(t: string): (r: (string, string))
    requires t != [] && t[0] == '-'
    ensures |r.1| < |t|
  {
    var e := NameLength(t);
    if StartsQuoted(t, e) then
      var (value, rest) := Unquote(t[e + 2..], t[e + 1]);
      (CString(t[..e + 1] + value), rest)
    else
      var w := e + WordLength(t[e..]);
      (CString(t[..w]), t[w..])
  }

  function ParseFlags(s: string): seq<string>
    decreases |s|
  {
    var t := SkipSpace(s);
    if t == [] || t[0] != '-' then [] else [FirstFlag(t).0] + ParseFlags(FirstFlag(t).1)
  }

  // ---- the parser ----

  method FindFirstNotOfSpace(s: string, pos: nat) returns (r: nat)
    requires pos <= |s|
    ensures pos <= r <= |s| && s[r..] == SkipSpace(s[pos..])
  {
    r := pos;
    while r < |s| && IsSpace(s[r])
      invariant pos <= r <= |s| && SkipSpace(s[r..]) == SkipSpace(s[pos..])
    {
      assert s[r..][1..] == s[r + 1..];
      r := r + 1;
    }
  }

  method FindFirstOfSpace(s: string, pos: nat) returns (r: nat)
    requires pos <= |s|
    ensures pos <= r <= |s| && r - pos == WordLength(s[pos..])
  {
    r := pos;
    while r < |s| && !IsSpace(s[r])
      invariant pos <= r <= |s| && (r - pos) + WordLength(s[r..]) == WordLength(s[pos..])
    {
      assert s[r..][1..] == s[r + 1..];
      r := r + 1;
    }
  }

  class EnvArgv {
    var argc: nat
    var argv: seq<string>

    ghost predicate Valid()
      reads this
    {
      argc == |argv|
    }

    /** Appends the concatenation as a C string. */
    method AppendToEnvArgv(s0: string, s1: string)
      requires Valid()
      modifies this
      ensures Valid() && argv == old(argv) + [CString(s0 + s1)]
    {
      argv := argv + [CString(s0 + s1)];
      argc := argc + 1;
    }

    /** Parses flags until the first text that is not one. Each flag advances `b`, so the
        loop ends on every input. */
    method ParseArgvFromString(flagStr: string)
      requires Valid()
      modifies this
      ensures Valid() && argv == old(argv) + ParseFlags(flagStr)
    {
      var b := FindFirstNotOfSpace(flagStr, 0);
      assert flagStr[0..] == flagStr;
      ParseSkips(flagStr);
      ghost var done: seq<string> := [];
      while b != |flagStr| && flagStr[b] == '-'
        invariant Valid() && b <= |flagStr| && SkipSpace(flagStr[b..]) == flagStr[b..]
        invariant argv == old(argv) + done && done + ParseFlags(flagStr[b..]) == ParseFlags(flagStr)
        decreases |flagStr| - b
      {
        ghost var arg := FirstFlag(flagStr[b..]).0;
        var e := ParseFlag(flagStr, b);
        ParseStep(flagStr, done, b, e);
        done := done + [arg];
        b := FindFirstNotOfSpace(flagStr, e);
      }
    }

    static lemma ParseStep(s: string, done: seq<string>, b: nat, e: nat)
      requires b < e <= |s| && s[b] == '-' && SkipSpace(s[b..]) == s[b..] && s[e..] == FirstFlag(s[b..]).1
      requires done + ParseFlags(s[b..]) == ParseFlags(s)
      ensures done + [FirstFlag(s[b..]).0] + ParseFlags(SkipSpace(s[e..])) == ParseFlags(s)
      ensures SkipSpace(SkipSpace(s[e..])) == SkipSpace(s[e..])
    {
      ParseSkips(s[e..]);
      ParseFirst(s[b..]);
      ListAssociates(done, [FirstFlag(s[b..]).0], ParseFlags(s[e..]));
    }

    static lemma ParseFirst(t: string)
      requires t != [] && t[0] == '-' && SkipSpace(t) == t
      ensures ParseFlags(t) == [FirstFlag(t).0] + ParseFlags(FirstFlag(t).1)
    {}

    static lemma ListAssociates<T>(a: seq<T>, b: seq<T>, c: seq<T>)
      ensures a + b + c == a + (b + c)
    {}

    static lemma TailPieces(s: string, b: nat, k: nat)
      requires b + k <= |s|
      ensures s[b..][..k] == s[b..b + k] && s[b..][k..] == s[b + k..]
    {}

    static lemma QuotedAt(s: string, b: nat, q: nat)
      requires b < q < |s| && s[b] == '-' && q - 1 - b == NameLength(s[b..]) && s[q - 1] == '=' && IsQuote(s[q])
      ensures
        var (value, rest) := Unquote(s[q + 1..], s[q]);
        FirstFlag(s[b..]) == (CString(s[b..q] + value), rest)
    {
      TailPieces(s, b, q - b);
      TailPieces(s, b, q + 1 - b);
    }

    static lemma WordAt(s: string, b: nat, e: nat)
      requires b < e <= |s| && s[b] == '-' && e - b == NameLength(s[b..])
      requires !(e != |s| && s[e] == '=' && e + 1 != |s| && IsQuote(s[e + 1]))
      ensures
        var w := e + WordLength(s[e..]);
        w <= |s| && FirstFlag(s[b..]) == (CString(s[b..w] + ""), s[w..])
    {
      TailPieces(s, b, e - b);
      var w := e + WordLength(s[e..]);
      TailPieces(s, b, w - b);
      assert s[b..w] + "" == s[b..w];
    }

    /** One flag starting at `b`; returns the position after it. */
    method ParseFlag(flagStr: string, b: nat) returns (e: nat)
      requires Valid() && b < |flagStr| && flagStr[b] == '-'
      modifies this
      ensures Valid() && b < e <= |flagStr|
      ensures argv == old(argv) + [FirstFlag(flagStr[b..]).0] && flagStr[e..] == FirstFlag(flagStr[b..]).1
    {
      e := FindNameEnd(flagStr, b);
      if e != |flagStr| && flagStr[e] == '=' && e + 1 != |flagStr| && IsQuote(flagStr[e + 1]) {
        e := ParseQuoted(flagStr, b, e + 1);
      } else {
        WordAt(flagStr, b, e);
        e := FindFirstOfSpace(flagStr, e);
        AppendToEnvArgv(flagStr[b..e], "");
      }
    }

    /** A flag whose value is quoted, with the opening quote at `eflag`. */
    method ParseQuoted(flagStr: string, b: nat, eflag: nat) returns (e: nat)
      requires Valid() && b < eflag < |flagStr| && flagStr[b] == '-' && eflag - 1 - b == NameLength(flagStr[b..])
      requires flagStr[eflag - 1] == '=' && IsQuote(flagStr[eflag])
      modifies this
      ensures Valid() && b < e <= |flagStr|
      ensures argv == old(argv) + [FirstFlag(flagStr[b..]).0] && flagStr[e..] == FirstFlag(flagStr[b..]).1
    {
      QuotedAt(flagStr, b, eflag);
      var value;
      value, e := ReadQuoted(flagStr, eflag + 1, flagStr[eflag]);
      AppendToEnvArgv(flagStr[b..eflag], value);
    }
  }

  method FindNameEnd(s: string, b: nat) returns (e: nat)
    requires b < |s| && s[b] == '-'
    ensures b < e <= |s| && e - b == NameLength(s[b..])
  {
    e := b;
    while e != |s| && IsNameChar(s[e])
      invariant b <= e <= |s| && (e - b) + NameLength(s[e..]) == NameLength(s[b..])
    {
      assert s[e..][1..] == s[e + 1..];
      e := e + 1;
    }
  }

  /** The value between quotes; returns the position after the closing quote. */
  method ReadQuoted(s: string, start: nat, quote: char) returns (value: string, e: nat)
    requires start <= |s|
    ensures start <= e <= |s| && (value, s[e..]) == Unquote(s[start..], quote)
  {
    e := start;
    value := "";
    while e != |s| && s[e] != quote
      invariant start <= e <= |s|
      invariant Unquote(s[start..], quote).0 == value + Unquote(s[e..], quote).0
      invariant Unquote(s[start..], quote).1 == Unquote(s[e..], quote).1
      decreases |s| - e
    {
      ghost var rest, before := s[e..], value;
      var c := s[e];
      if quote == '"' && c == '\\' && e + 1 != |s| {
        e := e + 1;
        c := s[e];
        assert rest[2..] == s[e + 1..];
      } else {
        assert rest[1..] == s[e + 1..];
      }
      value := value + [c];
      e := e + 1;
      assert Unquote(rest, quote) == ([c] + Unquote(s[e..], quote).0, Unquote(s[e..], quote).1);
      AppendAssociates(before, c, Unquote(s[e..], quote).0);
    }
    assert value + [] == value;
    if e != |s| {
      assert s[e..][1..] == s[e + 1..];
      e := e + 1;
    }
  }

  lemma AppendAssociates(a: string, c: char, b: string)
    ensures a + ([c] + b) == a + [c] + b
  {}

  lemma ParseSkips(s: string)
    ensures ParseFlags(SkipSpace(s)) == ParseFlags(s) && SkipSpace(SkipSpace(s)) == SkipSpace(s)
  {
    SkipIdempotent(s);
  }

  lemma SkipIdempotent(s: string)
    ensures SkipSpace(SkipSpace(s)) == SkipSpace(s)
  {}

  // ---- printing ----

  /** Letters, digits, dash and underscore. */
  predicate PlainNameChar(c: char) {
    c == '-' || c == '_' || 'a' <= c <= 'z' || 'A' <= c <= 'Z' || '0' <= c <= '9'
  }

  const WHITE_SPACE: set<char> := {' ', '\t', '\r', '\n'}

  /** The parser's classes of characters: NUL counts as part of a name and as a quote. */
  lemma CharacterClasses(c: char)
    ensures IsNameChar(c) <==> PlainNameChar(c) || c == '\0'
    ensures IsQuote(c) <==> c == '"' || c == '\'' || c == '\0'
    ensures IsSpace(c) <==> c in WHITE_SPACE
  {}

  predicate IsName(name: string) {
    name != [] && name[0] == '-' && forall k :: 0 <= k < |name| ==> PlainNameChar(name[k])
  }

  /** Everything before the first equals sign reads as a name and a quote follows. */
  ghost predicate LooksQuoted(word: string) {
    exists e :: && 0 <= e < |word| - 1 && (forall k :: 0 <= k < e ==> PlainNameChar(word[k]))
                && word[e] == '=' && (word[e + 1] == '"' || word[e + 1] == '\'')
  }

  predicate NulFree(s: string) { forall k :: 0 <= k < |s| ==> s[k] != NUL }

  predicate AllSpace(s: string) { forall k :: 0 <= k < |s| ==> s[k] in WHITE_SPACE }

  /** One character between double quotes, with or without a backslash before it. Only quotes
      and backslashes need one. */
  datatype Piece = Piece(escaped: bool, c: char) {
    predicate Valid() { escaped || (c != '"' && c != '\\') }
    function Print(): string { if escaped then ['\\', c] else [c] }
  }

  predicate AllValid(value: seq<Piece>) { forall k :: 0 <= k < |value| ==> value[k].Valid() }

  function PrintPieces(value: seq<Piece>): string {
    if value == [] then [] else value[0].Print() + PrintPieces(value[1..])
  }

  function Characters(value: seq<Piece>): (s: string)
    ensures |s| == |value| && forall k :: 0 <= k < |s| ==> s[k] == value[k].c
  {
    seq(|value|, k requires 0 <= k < |value| => value[k].c)
  }

  /** A flag as it can be written: with a quoted value, or as one bare word. */
  datatype Flag = DoubleQuoted(name: string, pieces: seq<Piece>) | SingleQuoted(name: string, value: string) | Bare(word: string) {
    ghost predicate Valid() {
      match this
      case DoubleQuoted(name, value) => IsName(name) && AllValid(value) && NulFree(Characters(value))
      case SingleQuoted(name, value) => IsName(name) && NulFree(value) && '\'' !in value
      case Bare(word) =>
        && word != [] && word[0] == '-' && NulFree(word)
        && (forall k :: 0 <= k < |word| ==> word[k] !in WHITE_SPACE) && !LooksQuoted(word)
    }

    function Print(): string {
      match this
      case DoubleQuoted(name, value) => name + "=\"" + PrintPieces(value) + "\""
      case SingleQuoted(name, value) => name + "='" + value + "'"
      case Bare(word) => word
    }

    /** The argument the program is meant to see. */
    function Argument(): string {
      match this
      case DoubleQuoted(name, value) => name + "=" + Characters(value)
      case SingleQuoted(name, value) => name + "=" + value
      case Bare(word) => word
    }
  }

  datatype Item = Item(space: string, flag: Flag)

  /** Flags separated by white space; after a quoted value none is needed. Then white space and
      any text that does not start with a dash. */
  ghost predicate ValidLine(items: seq<Item>, afterBare: bool, space: string, rest: string)
    decreases |items|
  {
    if items == [] then
      && AllSpace(space) && (afterBare && rest != [] ==> space != [])
      && (rest != [] ==> rest[0] != '-' && rest[0] !in WHITE_SPACE)
    else
      && AllSpace(items[0].space) && (afterBare ==> items[0].space != []) && items[0].flag.Valid()
      && ValidLine(items[1..], items[0].flag.Bare?, space, rest)
  }

  function PrintLine(items: seq<Item>, trailing: string): string {
    if items == [] then trailing
    else items[0].space + (items[0].flag.Print() + PrintLine(items[1..], trailing))
  }

  function Arguments(items: seq<Item>): seq<string> {
    if items == [] then [] else [items[0].flag.Argument()] + Arguments(items[1..])
  }

  // ---- the round trip ----

  lemma {:induction false} SkipSpaces(space: string, t: string)
    requires AllSpace(space) && (t == [] || !IsSpace(t[0]))
    ensures SkipSpace(space + t) == t
  {
    if space == [] {
      assert space + t == t;
    } else {
      assert (space + t)[1..] == space[1..] + t;
      SkipSpaces(space[1..], t);
    }
  }

  lemma {:induction false} NameEnds(name: string, t: string)
    requires (forall k :: 0 <= k < |name| ==> PlainNameChar(name[k])) && (t == [] || !IsNameChar(t[0]))
    ensures NameLength(name + t) == |name|
  {
    if name == [] {
      assert name + t == t;
    } else {
      assert (name + t)[1..] == name[1..] + t;
      NameEnds(name[1..], t);
    }
  }

  /** Each piece is read as its character; then comes the closing quote, or the end of the text,
      where a last backslash stands for itself. */
  lemma {:induction false} UnquotePieces(value: seq<Piece>, t: string)
    requires AllValid(value)
    ensures Unquote(PrintPieces(value) + ['"'] + t, '"') == (Characters(value), t)
    ensures Unquote(PrintPieces(value), '"') == (Characters(value), [])
    ensures Unquote(PrintPieces(value) + ['\\'], '"') == (Characters(value) + ['\\'], [])
  {
    UnquoteAfter(value, ['"'] + t);
    UnquoteAfter(value, []);
    UnquoteAfter(value, ['\\']);
    var close, last := ['"'] + t, ['\\'];
    assert close[1..] == t && last[1..] == [];
    assert Unquote(last[1..], '"') == ([], []) && [last[0]] + [] == last;
    assert PrintPieces(value) + ['"'] + t == PrintPieces(value) + close && PrintPieces(value) + [] == PrintPieces(value);
    assert Characters(value) + [] == Characters(value);
  }

  lemma {:induction false} UnquoteAfter(value: seq<Piece>, t: string)
    requires AllValid(value)
    ensures Unquote(PrintPieces(value) + t, '"') == (Characters(value) + Unquote(t, '"').0, Unquote(t, '"').1)
  {
    if value == [] {
      EmptyFirst(t);
      EmptyFirst(Unquote(t, '"').0);
    } else {
      UnquoteAfter(value[1..], t);
      UnquoteOne(value[0], PrintPieces(value[1..]) + t);
      FirstPiece(value, t);
      FirstCharacter(value);
      ConcatAssociates([value[0].c], Characters(value[1..]), Unquote(t, '"').0);
    }
  }

  lemma FirstPiece(value: seq<Piece>, t: string)
    requires value != []
    ensures PrintPieces(value) + t == value[0].Print() + (PrintPieces(value[1..]) + t)
  {
    ConcatAssociates(value[0].Print(), PrintPieces(value[1..]), t);
  }

  lemma FirstCharacter(value: seq<Piece>)
    requires value != []
    ensures Characters(value) == [value[0].c] + Characters(value[1..])
  {}

  lemma EmptyFirst(s: string)
    ensures [] + s == s
  {}

  lemma ConcatAssociates(a: string, b: string, c: string)
    ensures a + (b + c) == (a + b) + c
  {}

  lemma UnquoteOne(piece: Piece, rest: string)
    requires piece.Valid()
    ensures Unquote(piece.Print() + rest, '"') == ([piece.c] + Unquote(rest, '"').0, Unquote(rest, '"').1)
  {
    var s := piece.Print() + rest;
    assert s[|piece.Print()|..] == rest;
  }

  lemma {:induction false} UnquoteSingle(value: string, t: string)
    requires '\'' !in value
    ensures Unquote(value + ['\''] + t, '\'') == (value, t)
    ensures Unquote(value, '\'') == (value, [])
  {
    var s := value + ['\''] + t;
    if value == [] {
      assert s == ['\''] + t && s[1..] == t;
    } else {
      UnquoteSingle(value[1..], t);
      assert value == [value[0]] + value[1..];
      assert s == [value[0]] + (value[1..] + ['\''] + t) && s[1..] == value[1..] + ['\''] + t;
    }
  }

  lemma {:induction false} CStringOfNulFree(s: string)
    requires NulFree(s)
    ensures CString(s) == s
  {
    if s != [] {
      CStringOfNulFree(s[1..]);
      assert s == [s[0]] + s[1..];
    }
  }

  lemma {:induction false} WordEnds(word: string, t: string)
    requires (forall k :: 0 <= k < |word| ==> !IsSpace(word[k])) && (t == [] || IsSpace(t[0]))
    ensures WordLength(word + t) == |word|
  {
    if word == [] {
      assert word + t == t;
    } else {
      assert (word + t)[1..] == word[1..] + t;
      WordEnds(word[1..], t);
    }
  }

  lemma QuotedPieces(name: string, quote: char, body: string, t: string)
    ensures
      var s := name + ['=', quote] + body + [quote] + t;
      && s == name + (['=', quote] + body + [quote] + t) && s[..|name| + 1] == name + "="
      && s[|name|] == '=' && s[|name| + 1] == quote && s[|name| + 2..] == body + [quote] + t
  {}

  /** The parser reads back a double-quoted flag, whatever follows it. */
  lemma FirstFlagDouble(name: string, value: seq<Piece>, t: string)
    requires IsName(name) && AllValid(value) && NulFree(Characters(value))
    ensures FirstFlag(DoubleQuoted(name, value).Print() + t) == (name + "=" + Characters(value), t)
  {
    QuotedPieces(name, '"', PrintPieces(value), t);
    NameEnds(name, ['=', '"'] + PrintPieces(value) + ['"'] + t);
    UnquotePieces(value, t);
    CStringOfNulFree(name + "=" + Characters(value));
  }

  lemma FirstFlagSingle(name: string, value: string, t: string)
    requires IsName(name) && NulFree(value) && '\'' !in value
    ensures FirstFlag(SingleQuoted(name, value).Print() + t) == (name + "=" + value, t)
  {
    QuotedPieces(name, '\'', value, t);
    NameEnds(name, ['=', '\''] + value + ['\''] + t);
    UnquoteSingle(value, t);
    CStringOfNulFree(name + "=" + value);
  }

  lemma {:induction false} NameLengthWithin(word: string, t: string)
    requires word != [] && (t == [] || IsSpace(t[0]))
    ensures NameLength(word + t) == NameLength(word)
  {
    if |word| == 1 {
      assert (word + t)[1..] == t && word[1..] == [];
    } else {
      assert (word + t)[1..] == word[1..] + t;
      NameLengthWithin(word[1..], t);
    }
  }

  lemma {:induction false} NameLengthStops(s: string)
    requires NulFree(s)
    ensures forall k :: 0 <= k < NameLength(s) ==> PlainNameChar(s[k])
  {
    if s != [] && IsNameChar(s[0]) {
      NameLengthStops(s[1..]);
      forall k | 0 <= k < NameLength(s) ensures PlainNameChar(s[k]) { if k > 0 { assert s[k] == s[1..][k - 1]; } }
    }
  }

  lemma BareIsNotQuoted(word: string)
    requires Bare(word).Valid()
    ensures !StartsQuoted(word, NameLength(word))
  {
    NameLengthStops(word);
  }

  lemma FirstFlagBare(word: string, t: string)
    requires Bare(word).Valid() && (t == [] || IsSpace(t[0]))
    ensures FirstFlag(word + t) == (word, t)
  {
    NameLengthWithin(word, t);
    BareIsNotQuoted(word);
    var e := NameLength(word);
    WordEnds(word[e..], t);
    ConcatPieces(word, t, e);
    CStringOfNulFree(word);
  }

  lemma ConcatPieces(word: string, t: string, e: nat)
    requires e <= |word|
    ensures (word + t)[e..] == word[e..] + t && (word + t)[..|word|] == word && (word + t)[|word|..] == t
  {}

  lemma FirstFlagReadsBack(flag: Flag, t: string)
    requires flag.Valid() && (flag.Bare? ==> t == [] || IsSpace(t[0]))
    ensures flag.Print() != [] && flag.Print()[0] == '-'
    ensures FirstFlag(flag.Print() + t) == (flag.Argument(), t)
  {
    match flag
    case DoubleQuoted(name, value) => FirstFlagDouble(name, value, t);
    case SingleQuoted(name, value) => FirstFlagSingle(name, value, t);
    case Bare(word) => FirstFlagBare(word, t);
  }

  lemma LineStartsWithSpace(items: seq<Item>, space: string, rest: string)
    requires ValidLine(items, true, space, rest)
    ensures PrintLine(items, space + rest) == [] || IsSpace(PrintLine(items, space + rest)[0])
  {}

  /** Printing any list of flags, quoted in either way or bare, and parsing the text gives back
      exactly the arguments; the first text that is not a flag ends the parsing. */
  lemma {:induction false} ParsePrint(items: seq<Item>, space: string, rest: string, afterBare: bool)
    requires ValidLine(items, afterBare, space, rest)
    ensures ParseFlags(PrintLine(items, space + rest)) == Arguments(items)
    decreases |items|
  {
    if items == [] {
      SkipSpaces(space, rest);
    } else {
      var flag, line := items[0].flag, PrintLine(items[1..], space + rest);
      if flag.Bare? { LineStartsWithSpace(items[1..], space, rest); }
      FirstFlagReadsBack(flag, line);
      SkipSpaces(items[0].space, flag.Print() + line);
      ParsePrint(items[1..], space, rest, flag.Bare?);
    }
  }

  lemma CStringKeepsHead(s: string)
    ensures NulFree(CString(s)) && CString(s) <= s && (|CString(s)| < |s| ==> s[|CString(s)|] == '\0')
    ensures s != [] && s[0] != NUL ==> CString(s) != [] && CString(s)[0] == s[0]
  {}

  lemma FirstIsFlag(t: string)
    requires t != [] && t[0] == '-'
    ensures FirstFlag(t).0 != [] && FirstFlag(t).0[0] == '-' && NulFree(FirstFlag(t).0)
  {
    var e := NameLength(t);
    CStringKeepsHead(t[..e + WordLength(t[e..])]);
    if StartsQuoted(t, e) { CStringKeepsHead(t[..e + 1] + Unquote(t[e + 2..], t[e + 1]).0); }
  }

  /** Of every string at all: parsed arguments start with a dash, contain no NUL, and are
      fewer than the characters. */
  lemma {:induction false} ArgumentsAreFlags(s: string)
    ensures |ParseFlags(s)| <= |s|
    ensures forall k :: 0 <= k < |ParseFlags(s)| ==>
              ParseFlags(s)[k] != [] && ParseFlags(s)[k][0] == '-' && NulFree(ParseFlags(s)[k])
    decreases |s|
  {
    var t := SkipSpace(s);
    if t != [] && t[0] == '-' {
      var e := NameLength(t);
      FirstIsFlag(t);
      ArgumentsAreFlags(FirstFlag(t).1);
    }
  }
}
