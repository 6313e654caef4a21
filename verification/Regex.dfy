/**
 The simple regular expressions of the bundled test framework: the backtracking matcher is sound and
 complete for a declarative language of patterns. A C string is modelled by its characters without the
 terminating NUL; `CharAt` reads the terminator.
 */
module Regex {
  import opened Wrappers

  // ---- patterns and their language ----

  /** `c`, or `\c` when escaped. */
  datatype Atom = Atom(escaped: bool, c: char)

  datatype Count = One | ZeroOrOne | ZeroOrMore | OneOrMore

  datatype Item = Item(atom: Atom, count: Count)

  /** What follows an optional `^`: repeated atoms and perhaps a `$`. */
  datatype Tail = Tail(items: seq<Item>, atEnd: bool)

  datatype Pattern = Pattern(atStart: bool, tail: Tail)

  /** The characters an atom stands for, as the documentation of the syntax lists them. */
  predicate Denotes(a: Atom, ch: char) {
    if !a.escaped then
      if a.c == '.' then ch != '\n' else ch == a.c
    else match a.c
      case 'd' => Digit(ch)
      case 'D' => !Digit(ch)
      case 's' => Space(ch)
      case 'S' => !Space(ch)
      case 'w' => Word(ch)
      case 'W' => !Word(ch)
      case 'f' => ch == FORM_FEED
      case 'n' => ch == '\n'
      case 'r' => ch == '\r'
      case 't' => ch == '\t'
      case 'v' => ch == VERTICAL_TAB
      case _ => ch == a.c
  }

  const FORM_FEED: char := '\U{C}'
  const VERTICAL_TAB: char := '\U{B}'

  predicate Digit(ch: char) { '0' <= ch <= '9' }

  predicate Space(ch: char) {
    ch == ' ' || ch == FORM_FEED || ch == '\n' || ch == '\r' || ch == '\t' || ch == VERTICAL_TAB
  }

  predicate Word(ch: char) { 'a' <= ch <= 'z' || 'A' <= ch <= 'Z' || Digit(ch) || ch == '_' }

  predicate Times(c: Count, k: nat) {
    match c
    case One => k == 1
    case ZeroOrOne => k <= 1
    case ZeroOrMore => true
    case OneOrMore => k >= 1
  }

  ghost predicate Every(a: Atom, w: string) {
    forall i :: 0 <= i < |w| ==> Denotes(a, w[i])
  }

  /** `w` is a concatenation of occurrences of the atoms, each as often as its count allows. */
  ghost predicate InLanguage(items: seq<Item>, w: string)
    decreases |items|
  {
    if items == [] then w == "" else
      exists k | 0 <= k <= |w| :: SplitAt(items, w, k)
  }

  ghost predicate SplitAt(items: seq<Item>, w: string, k: nat)
    requires items != [] && k <= |w|
    decreases |items|, -1
  {
    Times(items[0].count, k) && Every(items[0].atom, w[..k]) && InLanguage(items[1..], w[k..])
  }

  /** Some prefix of `s` is in the language, all of `s` if the pattern ends in `$`. */
  ghost predicate MatchesHead(t: Tail, s: string) {
    exists n | 0 <= n <= |s| :: InLanguage(t.items, s[..n]) && (t.atEnd ==> n == |s|)
  }

  /** Some substring is in the language; `^` and `$` tie it to the ends. */
  ghost predicate Matches(p: Pattern, s: string) {
    exists i, j | 0 <= i <= j <= |s| ::
      InLanguage(p.tail.items, s[i..j]) && (p.atStart ==> i == 0) && (p.tail.atEnd ==> j == |s|)
  }

  // ---- concrete syntax ----

  function CharAt(s: string, i: nat): char {
    if i < |s| then s[i] else '\0'
  }

  predicate InSet(ch: char, set_: string) {
    ch != '\0' && ch in set_
  }

  predicate AsciiPunct(ch: char) {
    InSet(ch, "^-!\"#$%&'()*+,./:;<=>?@[\\]_`{|}~")
  }

  predicate IsRepeat(ch: char) {
    InSet(ch, "?*+")
  }

  predicate ValidEscape(ch: char) {
    AsciiPunct(ch) || InSet(ch, "dDfnrsStvwW")
  }

  /** Characters that are not literal characters or periods. */
  predicate Special(ch: char) {
    InSet(ch, "^$?*+()[]{}|\\")
  }

  predicate ValidAtom(a: Atom) {
    if a.escaped then ValidEscape(a.c) else !Special(a.c)
  }

  ghost predicate WellFormed(items: seq<Item>) {
    forall k :: 0 <= k < |items| ==> ValidAtom(items[k].atom)
  }

  function PrintAtom(a: Atom): (r: string)
    ensures r != ""
  {
    if a.escaped then ['\\', a.c] else [a.c]
  }

  function PrintCount(c: Count): string {
    match c
    case One => ""
    case ZeroOrOne => "?"
    case ZeroOrMore => "*"
    case OneOrMore => "+"
  }

  function PrintTail(t: Tail): string
    decreases |t.items|
  {
    if t.items == [] then (if t.atEnd then "$" else "")
    else PrintAtom(t.items[0].atom) + PrintCount(t.items[0].count) + PrintTail(Tail(t.items[1..], t.atEnd))
  }

  function Print(p: Pattern): string {
    (if p.atStart then "^" else "") + PrintTail(p.tail)
  }

  function CountOf(ch: char): Count {
    if ch == '?' then ZeroOrOne else if ch == '*' then ZeroOrMore else if ch == '+' then OneOrMore else One
  }

  function Cons(item: Item, t: Option<Tail>): Option<Tail> {
    match t
    case None => None
    case Some(t) => Some(Tail([item] + t.items, t.atEnd))
  }

  function ParseTail(s: string): Option<Tail>
    decreases |s|
  {
    if s == "" then Some(Tail([], false))
    else if s == "$" then Some(Tail([], true))
    else
      var escaped := s[0] == '\\';
      var rest := if escaped then s[1..] else s;
      if rest == "" || !ValidAtom(Atom(escaped, rest[0])) then None
      else if IsRepeat(CharAt(rest, 1)) then Cons(Item(Atom(escaped, rest[0]), CountOf(rest[1])), ParseTail(rest[2..]))
      else Cons(Item(Atom(escaped, rest[0]), One), ParseTail(rest[1..]))
  }

  function Parse(s: string): Option<Pattern> {
    var atStart := CharAt(s, 0) == '^';
    match ParseTail(if atStart then s[1..] else s)
    case None => None
    case Some(t) => Some(Pattern(atStart, t))
  }

  /** What a parsed or printed item looks like: it is one atom and its repetition character, if any. */
  lemma {:induction false} ParseItem(item: Item, rest: string)
    requires ValidAtom(item.atom) && (item.count == One ==> !IsRepeat(CharAt(rest, 0)))
    ensures ParseTail(PrintAtom(item.atom) + PrintCount(item.count) + rest) == Cons(item, ParseTail(rest))
  {
    hide ValidAtom, ParseTail;
    SpecialAtom(item.atom);
    var s := PrintAtom(item.atom) + PrintCount(item.count) + rest;
    var body := if item.atom.escaped then s[1..] else s;
    assert body == [item.atom.c] + PrintCount(item.count) + rest;
    assert item.count == One ==> body[1..] == rest;
    assert item.count != One ==> body[2..] == rest && CharAt(body, 1) == PrintCount(item.count)[0];
    ParseStep(s);
  }

  lemma {:induction false} SpecialAtom(a: Atom)
    requires ValidAtom(a)
    ensures !a.escaped ==> a.c != '$' && a.c != '\\' && a.c != '^' && !IsRepeat(a.c)
    ensures PrintAtom(a)[0] != '$' && PrintAtom(a)[0] != '^' && !IsRepeat(PrintAtom(a)[0])
  {
  }

  lemma {:induction false} ParseStep(s: string)
    requires s != "" && s[0] != '$'
    ensures var escaped := s[0] == '\\';
      var rest := if escaped then s[1..] else s;
      ParseTail(s) ==
        if rest == "" || !ValidAtom(Atom(escaped, rest[0])) then None
        else if IsRepeat(CharAt(rest, 1))
          then Cons(Item(Atom(escaped, rest[0]), CountOf(rest[1])), ParseTail(rest[2..]))
        else Cons(Item(Atom(escaped, rest[0]), One), ParseTail(rest[1..]))
  {
  }

  lemma {:induction false} PrintStartsWithAtom(t: Tail)
    requires WellFormed(t.items)
    ensures !IsRepeat(CharAt(PrintTail(t), 0)) && CharAt(PrintTail(t), 0) != '^'
  {
    if t.items != [] {
      hide ValidAtom, IsRepeat;
      assert ValidAtom(t.items[0].atom);
      SpecialAtom(t.items[0].atom);
    }
  }

  /** Parsing inverts printing, so a regular expression is the text of one pattern only. */
  lemma {:induction false} ParsePrintTail(t: Tail)
    requires WellFormed(t.items)
    ensures ParseTail(PrintTail(t)) == Some(t)
    decreases |t.items|
  {
    if t.items != [] {
      hide ValidAtom, IsRepeat, ParseTail;
      var more := Tail(t.items[1..], t.atEnd);
      assert ValidAtom(t.items[0].atom);
      ParsePrintTail(more);
      PrintStartsWithAtom(more);
      ParseItem(t.items[0], PrintTail(more));
      assert t.items == [t.items[0]] + more.items;
    }
  }

  lemma {:induction false} ParsePrint(p: Pattern)
    requires WellFormed(p.tail.items)
    ensures Parse(Print(p)) == Some(p)
  {
    hide ParseTail, PrintTail;
    ParsePrintTail(p.tail);
    PrintStartsWithAtom(p.tail);
    assert p.atStart ==> Print(p)[1..] == PrintTail(p.tail);
    assert !p.atStart ==> Print(p) == PrintTail(p.tail);
  }

  /** The item that a tail starts with, and the text after it. */
  lemma {:induction false} ParsedItem(s: string) returns (item: Item, more: string)
    requires ParseTail(s).Some? && s != "" && s != "$"
    ensures ValidAtom(item.atom) && s == PrintAtom(item.atom) + PrintCount(item.count) + more
    ensures ParseTail(s) == Cons(item, ParseTail(more)) && |more| < |s|
  {
    hide ValidAtom, ParseTail, PrintCount, IsRepeat;
    NotDollar(s);
    ParseStep(s);
    var escaped := s[0] == '\\';
    var rest := if escaped then s[1..] else s;
    RepeatInside(rest, 1);
    var atom := Atom(escaped, rest[0]);
    assert s == PrintAtom(atom) + rest[1..];
    if IsRepeat(CharAt(rest, 1)) {
      PrintCountOf(rest[1]);
      item, more := Item(atom, CountOf(rest[1])), rest[2..];
      assert rest[1..] == PrintCount(item.count) + more;
    } else {
      item, more := Item(atom, One), rest[1..];
      PrintOne();
    }
  }

  lemma {:induction false} NotDollar(s: string)
    requires ParseTail(s).Some? && s != "" && s != "$"
    ensures s[0] != '$'
  {
    assert s[0] == '$' ==> Special(s[0]);
  }

  lemma {:induction false} RepeatInside(s: string, i: nat)
    ensures IsRepeat(CharAt(s, i)) ==> i < |s|
  {
  }

  lemma {:induction false} PrintOne()
    ensures PrintCount(One) == ""
  {
  }

  /** Printing inverts parsing. */
  lemma {:induction false} PrintParseTail(s: string)
    requires ParseTail(s).Some?
    ensures WellFormed(ParseTail(s).value.items) && PrintTail(ParseTail(s).value) == s
    decreases |s|
  {
    if s != "" && s != "$" {
      hide ValidAtom, ParseTail;
      var item, more := ParsedItem(s);
      PrintParseTail(more);
      assert ParseTail(s).value.items[1..] == ParseTail(more).value.items;
    }
  }

  lemma {:induction false} PrintCountOf(ch: char)
    requires IsRepeat(ch)
    ensures PrintCount(CountOf(ch)) == [ch]
  {
  }

  lemma {:induction false} PrintParse(s: string)
    requires Parse(s).Some?
    ensures WellFormed(Parse(s).value.tail.items) && Print(Parse(s).value) == s
  {
    hide ParseTail, PrintTail;
    PrintParseTail(if CharAt(s, 0) == '^' then s[1..] else s);
  }

  // ---- the matcher ----

  /** AtomMatchesChar: escapes are looked up, and an escape that is none of them has to be punctuation. */
  predicate AtomMatchesChar(escaped: bool, patternChar: char, ch: char) {
    if escaped then
      match patternChar
      case 'd' => Digit(ch)
      case 'D' => !Digit(ch)
      case 'f' => ch == FORM_FEED
      case 'n' => ch == '\n'
      case 'r' => ch == '\r'
      case 's' => IsAsciiWhiteSpace(ch)
      case 'S' => !IsAsciiWhiteSpace(ch)
      case 't' => ch == '\t'
      case 'v' => ch == VERTICAL_TAB
      case 'w' => Word(ch)
      case 'W' => !Word(ch)
      case _ => AsciiPunct(patternChar) && patternChar == ch
    else (patternChar == '.' && ch != '\n') || patternChar == ch
  }

  predicate IsAsciiWhiteSpace(ch: char) {
    InSet(ch, [' ', FORM_FEED, '\n', '\r', '\t', VERTICAL_TAB])
  }

  /**
   For a valid atom the code decides the documented meaning, with one exception: a period, which also
   matches itself, is said to match anything but a newline and does.
   */
  lemma {:induction false} AtomMeaning(a: Atom, ch: char)
    requires ValidAtom(a)
    ensures AtomMatchesChar(a.escaped, a.c, ch) <==> Denotes(a, ch)
  {
    hide InSet, AsciiPunct, Special, IsAsciiWhiteSpace, Space, Digit, Word;
    WhiteSpace(ch);
    if InSet(a.c, "dDfnrsStvwW") {
      EscapeLetter(a.c);
    }
  }

  lemma {:induction false} WhiteSpace(ch: char)
    ensures IsAsciiWhiteSpace(ch) <==> Space(ch)
  {
  }

  lemma {:induction false} EscapeLetter(c: char)
    requires InSet(c, "dDfnrsStvwW")
    ensures c == 'd' || c == 'D' || c == 'f' || c == 'n' || c == 'r' || c == 's' || c == 'S' || c == 't' ||
      c == 'v' || c == 'w' || c == 'W'
  {
  }

  lemma {:induction false} SplitWitness(items: seq<Item>, w: string) returns (k: nat)
    requires items != [] && InLanguage(items, w)
    ensures k <= |w| && SplitAt(items, w, k)
  {
    k :| k <= |w| && SplitAt(items, w, k);
  }

  /** A tail matches at the head when its first atom matches some characters and the rest matches after them. */
  ghost predicate HeadSplit(t: Tail, s: string, k: nat)
    requires t.items != []
  {
    k <= |s| && Times(t.items[0].count, k) && Every(t.items[0].atom, s[..k]) &&
      MatchesHead(Tail(t.items[1..], t.atEnd), s[k..])
  }

  lemma {:induction false} SplitHead(t: Tail, s: string) returns (k: nat)
    requires t.items != [] && MatchesHead(t, s)
    ensures HeadSplit(t, s, k)
  {
    hide InLanguage, Every;
    var n :| 0 <= n <= |s| && InLanguage(t.items, s[..n]) && (t.atEnd ==> n == |s|);
    k := SplitWitness(t.items, s[..n]);
    assert s[..n][..k] == s[..k] && s[..n][k..] == s[k..][..n - k];
  }

  lemma {:induction false} JoinHead(t: Tail, s: string, k: nat)
    requires t.items != [] && HeadSplit(t, s, k)
    ensures MatchesHead(t, s)
  {
    hide Every;
    var m :| 0 <= m <= |s[k..]| && InLanguage(t.items[1..], s[k..][..m]) && (t.atEnd ==> m == |s[k..]|);
    var n := k + m;
    assert s[..n][..k] == s[..k] && s[..n][k..] == s[k..][..m];
    assert SplitAt(t.items, s[..n], k);
    assert InLanguage(t.items, s[..n]);
  }

  lemma {:induction false} EmptyHead(t: Tail, s: string)
    requires t.items == []
    ensures MatchesHead(t, s) <==> t.atEnd ==> s == ""
  {
    assert s[..0] == "" && InLanguage(t.items, s[..0]);
    assert forall n :: 0 <= n <= |s| && InLanguage(t.items, s[..n]) ==> n == 0;
  }

  /** An atom without repetition takes exactly one character. */
  lemma {:induction false} HeadOne(t: Tail, s: string)
    requires t.items != [] && t.items[0].count == One
    ensures MatchesHead(t, s) <==>
      s != "" && Denotes(t.items[0].atom, s[0]) && MatchesHead(Tail(t.items[1..], t.atEnd), s[1..])
  {
    hide MatchesHead, Denotes;
    if MatchesHead(t, s) {
      var k := SplitHead(t, s);
      assert k == 1 && s[..k][0] == s[0];
    }
    if s != "" && Denotes(t.items[0].atom, s[0]) && MatchesHead(Tail(t.items[1..], t.atEnd), s[1..]) {
      JoinHead(t, s, 1);
    }
  }

  /** The largest length of a C string, and the largest value of size_t. */
  const SIZE_MAX: int := 0xFFFF_FFFF_FFFF_FFFF

  /** The loop tries every number of repetitions, in the order of the code. */
  method MatchRepetitionAndRegexAtHead(escaped: bool, c: char, repeat: char, regex: string, str: string)
    returns (r: bool)
    requires IsRepeat(repeat) && ValidAtom(Atom(escaped, c)) && ParseTail(regex).Some? && |str| < SIZE_MAX
    ensures r <==> MatchesHead(Cons(Item(Atom(escaped, c), CountOf(repeat)), ParseTail(regex)).value, str)
    decreases |regex|, 1
  {
    hide MatchesHead, Denotes, AtomMatchesChar, ValidAtom, ParseTail, IsRepeat;
    ghost var t := Cons(Item(Atom(escaped, c), CountOf(repeat)), ParseTail(regex)).value;
    assert t.items[1..] == ParseTail(regex).value.items;
    RepeatTimes(repeat);
    var minCount := if repeat == '+' then 1 else 0;
    var maxCount := if repeat == '?' then 1 else SIZE_MAX - 1;
    var i := 0;
    while i <= maxCount
      invariant 0 <= i <= |str| && i <= maxCount + 1
      invariant Every(t.items[0].atom, str[..i])
      invariant forall k: nat :: k < i ==> !HeadSplit(t, str, k)
    {
      if i >= minCount {
        r := MatchRegexAtHead(regex, str[i..]);
        if r {
          JoinHead(t, str, i);
          return;
        }
      }
      if i == |str| {
        NoSplit(t, str, i);
        return false;
      }
      AtomMeaning(Atom(escaped, c), str[i]);
      if !AtomMatchesChar(escaped, c, str[i]) {
        NoSplit(t, str, i);
        return false;
      }
      i := i + 1;
    }
    NoSplitBeyond(t, str, i);
    return false;
  }

  lemma {:induction false} RepeatTimes(repeat: char)
    requires IsRepeat(repeat)
    ensures forall k: nat :: Times(CountOf(repeat), k) <==>
      k >= (if repeat == '+' then 1 else 0) && (repeat == '?' ==> k <= 1)
  {
  }

  /** No number of repetitions up to `i` works, and the next character does not match. */
  lemma {:induction false} NoSplit(t: Tail, s: string, i: nat)
    requires t.items != [] && i <= |s| && (i < |s| ==> !Denotes(t.items[0].atom, s[i]))
    requires forall k: nat :: k <= i ==> !HeadSplit(t, s, k)
    ensures !MatchesHead(t, s)
  {
    hide MatchesHead, Denotes;
    if MatchesHead(t, s) {
      var k := SplitHead(t, s);
      EveryAt(t.items[0].atom, s, k, i);
    }
  }

  lemma {:induction false} EveryAt(a: Atom, s: string, k: nat, i: nat)
    requires k <= |s| && Every(a, s[..k])
    ensures i < k ==> Denotes(a, s[i])
  {
    if i < k {
      assert s[..k][i] == s[i];
    }
  }

  lemma {:induction false} NoSplitBeyond(t: Tail, s: string, i: nat)
    requires t.items != [] && forall k: nat :: k < i ==> !HeadSplit(t, s, k)
    requires forall k: nat :: k >= i ==> !Times(t.items[0].count, k)
    ensures !MatchesHead(t, s)
  {
    hide MatchesHead, Denotes;
    if MatchesHead(t, s) {
      var k := SplitHead(t, s);
    }
  }

  /** Does the regular expression match a prefix of the string? */
  method MatchRegexAtHead(regex: string, str: string) returns (r: bool)
    requires ParseTail(regex).Some? && |str| < SIZE_MAX
    ensures r <==> MatchesHead(ParseTail(regex).value, str)
    decreases |regex|, 0
  {
    hide MatchesHead, Denotes, AtomMatchesChar, ValidAtom;
    ghost var t := ParseTail(regex).value;
    if regex == "" {
      EmptyHead(t, str);
      return true;
    }
    if regex[0] == '$' {
      DollarEnds(regex);
      EmptyHead(t, str);
      return str == "";
    }
    ParseStep(regex);
    var escaped := regex[0] == '\\';
    var rest := if escaped then regex[1..] else regex;
    if IsRepeat(CharAt(rest, 1)) {
      r := MatchRepetitionAndRegexAtHead(escaped, rest[0], rest[1], rest[2..], str);
    } else {
      HeadOne(t, str);
      assert t.items[1..] == ParseTail(rest[1..]).value.items;
      r := false;
      if str != "" {
        AtomMeaning(t.items[0].atom, str[0]);
        if AtomMatchesChar(escaped, rest[0], str[0]) {
          r := MatchRegexAtHead(rest[1..], str[1..]);
        }
      }
    }
  }

  lemma {:induction false} DollarEnds(s: string)
    requires ParseTail(s).Some? && s != "" && s[0] == '$'
    ensures ParseTail(s) == Some(Tail([], true))
  {
    assert Special(s[0]);
  }

  /** Does the regular expression match a substring? The two pointers may be null. */
  method MatchRegexAnywhere(regex: Option<string>, str: Option<string>) returns (r: bool)
    requires regex.Some? ==> Parse(regex.value).Some?
    requires str.Some? ==> |str.value| < SIZE_MAX
    ensures r <==> regex.Some? && str.Some? && Matches(Parse(regex.value).value, str.value)
  {
    hide Matches, MatchesHead, ParseTail;
    if regex == None || str == None {
      return false;
    }
    ghost var p := Parse(regex.value).value;
    if CharAt(regex.value, 0) == '^' {
      AnchoredMatch(p, str.value);
      r := MatchRegexAtHead(regex.value[1..], str.value);
      return;
    }
    var k := 0;
    while true
      invariant 0 <= k <= |str.value|
      invariant forall j: nat :: j < k ==> !MatchesHead(p.tail, str.value[j..])
      decreases |str.value| - k
    {
      r := MatchRegexAtHead(regex.value, str.value[k..]);
      if r {
        MatchAt(p, str.value, k);
        return;
      }
      if k == |str.value| {
        NoMatch(p, str.value);
        return;
      }
      k := k + 1;
    }
  }

  lemma {:induction false} MatchAt(p: Pattern, s: string, k: nat)
    requires k <= |s| && MatchesHead(p.tail, s[k..]) && (p.atStart ==> k == 0)
    ensures Matches(p, s)
  {
    hide InLanguage;
    var n :| 0 <= n <= |s[k..]| && InLanguage(p.tail.items, s[k..][..n]) && (p.tail.atEnd ==> n == |s[k..]|);
    assert s[k..][..n] == s[k..k + n];
  }

  lemma {:induction false} MatchFound(p: Pattern, s: string) returns (k: nat)
    requires Matches(p, s)
    ensures k <= |s| && MatchesHead(p.tail, s[k..]) && (p.atStart ==> k == 0)
  {
    hide InLanguage;
    var i, j :| 0 <= i <= j <= |s| && InLanguage(p.tail.items, s[i..j])
      && (p.atStart ==> i == 0) && (p.tail.atEnd ==> j == |s|);
    k := i;
    assert s[i..j] == s[k..][..j - i];
  }

  lemma {:induction false} AnchoredMatch(p: Pattern, s: string)
    requires p.atStart
    ensures Matches(p, s) <==> MatchesHead(p.tail, s)
  {
    hide Matches, MatchesHead;
    assert s[0..] == s;
    if MatchesHead(p.tail, s) {
      MatchAt(p, s, 0);
    }
    if Matches(p, s) {
      var k := MatchFound(p, s);
    }
  }

  lemma {:induction false} NoMatch(p: Pattern, s: string)
    requires forall j: nat :: j <= |s| ==> !MatchesHead(p.tail, s[j..])
    ensures !Matches(p, s)
  {
    hide Matches, MatchesHead;
    if Matches(p, s) {
      var k := MatchFound(p, s);
    }
  }

  // ---- validation ----

  /** The rest of a regular expression is valid, after `first` or after a token that may be repeated. */
  predicate Valid(s: string, first: bool, prevRepeatable: bool)
    decreases |s|
  {
    if s == "" then true
    else if s[0] == '\\' then |s| > 1 && ValidEscape(s[1]) && Valid(s[2..], false, true)
    else
      && (s[0] == '^' ==> first) && (s[0] == '$' ==> |s| == 1) && !InSet(s[0], "()[]{}|")
      && (IsRepeat(s[0]) ==> prevRepeatable)
      && Valid(s[1..], false, !InSet(s[0], "^$?*+"))
  }

  lemma {:induction false} AfterToken(s: string)
    ensures !IsRepeat(CharAt(s, 0)) ==> Valid(s, false, true) == Valid(s, false, false)
    ensures IsRepeat(CharAt(s, 0)) ==> Valid(s, false, true) == Valid(s[1..], false, false)
  {
  }

  /** A token is valid exactly when it is an atom that leaves a valid rest. */
  lemma {:induction false} ValidToken(s: string)
    requires s != "" && s[0] != '$'
    ensures var escaped := s[0] == '\\';
      var rest := if escaped then s[1..] else s;
      Valid(s, false, false) <==> rest != "" && ValidAtom(Atom(escaped, rest[0])) && Valid(rest[1..], false, true)
  {
    hide ValidEscape;
    if s[0] == '\\' {
      assert |s| > 1 ==> s[1..][1..] == s[2..];
    } else {
      PlainToken(s[0]);
    }
  }

  lemma {:induction false} PlainToken(ch: char)
    requires ch != '\\' && ch != '$'
    ensures Special(ch) <==> ch == '^' || InSet(ch, "()[]{}|") || IsRepeat(ch)
    ensures !Special(ch) ==> !InSet(ch, "^$?*+")
  {
  }

  lemma {:induction false} ValidIsParsedTail(s: string)
    ensures Valid(s, false, false) <==> ParseTail(s).Some?
    decreases |s|
  {
    if s != "" && s[0] != '$' {
      hide ValidAtom, Valid, ParseTail, IsRepeat;
      var escaped := s[0] == '\\';
      var rest := if escaped then s[1..] else s;
      ValidToken(s);
      ParseStep(s);
      if rest != "" {
        AfterToken(rest[1..]);
        RepeatInside(rest, 1);
        if IsRepeat(CharAt(rest, 1)) {
          assert rest[1..][1..] == rest[2..];
          ValidIsParsedTail(rest[2..]);
        } else {
          ValidIsParsedTail(rest[1..]);
        }
      }
    } else if s != "" {
      DollarParsed(s);
    }
  }

  lemma {:induction false} DollarParsed(s: string)
    requires s != "" && s[0] == '$'
    ensures ParseTail(s).Some? <==> |s| == 1
    ensures Valid(s, false, false) <==> |s| == 1
  {
    assert Special(s[0]) && InSet(s[0], "$");
    assert |s| == 1 ==> s == "$";
  }

  /** The regular expressions that the validation accepts are the texts of the patterns. */
  lemma {:induction false} ValidIsParsed(s: string)
    ensures Valid(s, true, false) <==> Parse(s).Some?
  {
    if CharAt(s, 0) == '^' {
      ValidIsParsedTail(s[1..]);
    } else {
      ValidIsParsedTail(s);
    }
  }

  method ValidateRegex(regex: Option<string>) returns (isValid: bool)
    ensures isValid <==> regex.Some? && Parse(regex.value).Some?
  {
    hide Parse, ValidEscape, IsRepeat, InSet;
    if regex == None {
      return false;
    }
    var s := regex.value;
    ValidIsParsed(s);
    isValid := true;
    var prevRepeatable := false;
    var i := 0;
    assert s[0..] == s;
    while i < |s|
      invariant 0 <= i <= |s|
      invariant isValid && Valid(s[i..], i == 0, prevRepeatable) <==> Valid(s, true, false)
    {
      ghost var rest := s[i..];
      assert rest[0] == s[i];
      if s[i] == '\\' {
        i := i + 1;
        if i == |s| {
          return false;
        }
        assert rest[1] == s[i] && rest[2..] == s[i + 1..];
        if !ValidEscape(s[i]) {
          isValid := false;
        }
        prevRepeatable := true;
      } else {
        var ch := s[i];
        assert rest[1..] == s[i + 1..];
        if ch == '^' && i > 0 {
          isValid := false;
        } else if ch == '$' && i + 1 < |s| {
          isValid := false;
        } else if InSet(ch, "()[]{}|") {
          isValid := false;
        } else if IsRepeat(ch) && !prevRepeatable {
          isValid := false;
        }
        prevRepeatable := !InSet(ch, "^$?*+");
      }
      i := i + 1;
    }
  }

  // ---- full and partial matches ----

  /** The last thing in the pattern is an unrepeated `\$`. */
  predicate EndsInEscapedDollar(p: Pattern) {
    var items := p.tail.items;
    !p.tail.atEnd && items != [] && items[|items| - 1] == Item(Atom(true, '$'), One)
  }

  /** The pattern of RE::Init for full matches. */
  function FullPattern(p: Pattern): Pattern {
    Pattern(true, Tail(p.tail.items, !EndsInEscapedDollar(p)))
  }

  predicate EndsInDollar(s: string) {
    s != "" && s[|s| - 1] == '$'
  }

  /** The text RE::Init builds for full matches. */
  function FullText(s: string): string {
    (if CharAt(s, 0) != '^' then "^" else "") + s + (if EndsInDollar(s) then "" else "$")
  }

  lemma {:induction false} PrintEnd(t: Tail)
    requires WellFormed(t.items)
    ensures EndsInDollar(PrintTail(t)) <==> t.atEnd || EndsInEscapedDollar(Pattern(false, t))
    ensures t.items != [] ==> PrintTail(t) != ""
    decreases |t.items|
  {
    if t.items != [] {
      hide ValidAtom, PrintAtom, PrintCount, EndsInEscapedDollar, EndsInDollar;
      var more := Tail(t.items[1..], t.atEnd);
      assert ValidAtom(t.items[0].atom);
      PrintEnd(more);
      ItemEnd(t.items[0]);
      LastItem(t, more);
      TextEnd(PrintAtom(t.items[0].atom) + PrintCount(t.items[0].count), PrintTail(more));
      NoItems(more);
    }
  }

  lemma {:induction false} TextEnd(a: string, b: string)
    ensures EndsInDollar(a + b) == EndsInDollar(if b == "" then a else b)
  {
  }

  lemma {:induction false} NoItems(t: Tail)
    ensures t.items == [] ==> PrintTail(t) == (if t.atEnd then "$" else "") && !EndsInEscapedDollar(Pattern(false, t))
  {
  }

  lemma {:induction false} LastItem(t: Tail, more: Tail)
    requires t.items != [] && more == Tail(t.items[1..], t.atEnd)
    ensures |t.items| > 1 ==> EndsInEscapedDollar(Pattern(false, t)) == EndsInEscapedDollar(Pattern(false, more))
    ensures |t.items| == 1 ==>
      (EndsInEscapedDollar(Pattern(false, t)) <==> !t.atEnd && t.items[0] == Item(Atom(true, '$'), One))
  {
  }

  lemma {:induction false} ItemEnd(item: Item)
    requires ValidAtom(item.atom)
    ensures EndsInDollar(PrintAtom(item.atom) + PrintCount(item.count)) <==> item == Item(Atom(true, '$'), One)
  {
    SpecialAtom(item.atom);
  }

  lemma {:induction false} PrintAtEnd(t: Tail)
    requires !t.atEnd
    ensures PrintTail(Tail(t.items, true)) == PrintTail(t) + "$"
    decreases |t.items|
  {
    if t.items != [] {
      PrintAtEnd(Tail(t.items[1..], false));
    }
  }

  /** The text for full matches is that of the pattern tied to both ends, unless it ends in `\$`. */
  lemma {:induction false} FullTextParsed(s: string)
    requires Parse(s).Some?
    ensures Parse(FullText(s)) == Some(FullPattern(Parse(s).value))
  {
    hide Parse, PrintTail, WellFormed, EndsInEscapedDollar;
    var p := Parse(s).value;
    PrintParse(s);
    PrintStartsWithAtom(p.tail);
    PrintEnd(p.tail);
    SameEnd(p);
    if !p.tail.atEnd {
      PrintAtEnd(p.tail);
    }
    TextEnd(if p.atStart then "^" else "", PrintTail(p.tail));
    assert FullText(s) == Print(FullPattern(p));
    ParsePrint(FullPattern(p));
  }

  lemma {:induction false} SameEnd(p: Pattern)
    ensures EndsInEscapedDollar(Pattern(false, p.tail)) == EndsInEscapedDollar(p)
    ensures EndsInEscapedDollar(p) ==> !p.tail.atEnd && p.tail == Tail(p.tail.items, false)
  {
  }

  class RE {
    var pattern: Option<string>
    var fullPattern: Option<string>
    var isValid: bool

    /** What RE::Init establishes. */
    ghost predicate Ready()
      reads this
    {
      && (isValid <==> pattern.Some? && Parse(pattern.value).Some?)
      && (isValid ==> fullPattern.Some? && fullPattern.value == FullText(pattern.value))
    }

    constructor (regex: Option<string>)
      ensures Ready() && pattern == regex
    {
      pattern, fullPattern, isValid := None, None, false;
      new;
      Init(regex);
    }

    method Init(regex: Option<string>)
      modifies this
      ensures Ready() && pattern == regex
    {
      hide Parse;
      pattern, fullPattern := regex, None;
      isValid := ValidateRegex(regex);
      if !isValid {
        return;
      }
      var s := regex.value;
      var buffer := "";
      if CharAt(s, 0) != '^' {
        buffer := buffer + "^";
      }
      buffer := buffer + s;
      if |s| == 0 || s[|s| - 1] != '$' {
        buffer := buffer + "$";
      }
      fullPattern := Some(buffer);
    }

    method FullMatch(str: string) returns (r: bool)
      requires Ready() && |str| < SIZE_MAX
      ensures r <==> isValid && Matches(FullPattern(Parse(pattern.value).value), str)
    {
      hide Parse, Matches, FullText;
      r := false;
      if isValid {
        FullTextParsed(pattern.value);
        r := MatchRegexAnywhere(fullPattern, Some(str));
      }
    }

    method PartialMatch(str: string) returns (r: bool)
      requires Ready() && |str| < SIZE_MAX
      ensures r <==> isValid && Matches(Parse(pattern.value).value, str)
    {
      hide Parse, Matches;
      r := false;
      if isValid {
        r := MatchRegexAnywhere(pattern, Some(str));
      }
    }
  }

  /** A full match is membership of the whole string, or of a prefix when the pattern ends in `\$`. */
  lemma {:induction false} FullMatchMeaning(p: Pattern, s: string)
    ensures !EndsInEscapedDollar(p) ==> (Matches(FullPattern(p), s) <==> InLanguage(p.tail.items, s))
    ensures EndsInEscapedDollar(p) ==>
      (Matches(FullPattern(p), s) <==> exists n | 0 <= n <= |s| :: InLanguage(p.tail.items, s[..n]))
  {
    hide Matches, InLanguage, EndsInEscapedDollar;
    AnchoredMatch(FullPattern(p), s);
    assert s[..|s|] == s;
  }

  // ---- when a full match is exact ----

  /** A character that the atom denotes. */
  function Sample(a: Atom): char {
    if !a.escaped then a.c else
      match a.c
      case 'd' => '0'
      case 'D' => 'a'
      case 's' => ' '
      case 'S' => 'a'
      case 'w' => 'a'
      case 'W' => ' '
      case 'f' => FORM_FEED
      case 'n' => '\n'
      case 'r' => '\r'
      case 't' => '\t'
      case 'v' => VERTICAL_TAB
      case _ => a.c
  }

  function Samples(items: seq<Item>): string {
    if items == [] then "" else [Sample(items[0].atom)] + Samples(items[1..])
  }

  /** Every pattern matches some string. */
  lemma {:induction false} SomeMember(items: seq<Item>)
    ensures InLanguage(items, Samples(items))
  {
    if items != [] {
      SomeMember(items[1..]);
      var w := Samples(items);
      assert w[1..] == Samples(items[1..]) && w[..1] == [Sample(items[0].atom)];
      assert Denotes(items[0].atom, Sample(items[0].atom));
      assert SplitAt(items, w, 1);
    }
  }

  /** Strings of a pattern that ends in `\$` end in a dollar. */
  lemma {:induction false} LastIsDollar(items: seq<Item>, w: string)
    requires items != [] && items[|items| - 1] == Item(Atom(true, '$'), One) && InLanguage(items, w)
    ensures w != "" && w[|w| - 1] == '$'
    decreases |items|
  {
    var k := SplitWitness(items, w);
    if |items| > 1 {
      LastIsDollar(items[1..], w[k..]);
    } else {
      assert w[k..] == "" && w[..k][0] == w[0];
    }
  }

  /** Full matches are exactly the members of the language unless the pattern ends in an unrepeated `\$`. */
  lemma {:induction false} FullMatchExact(p: Pattern)
    ensures (forall s: string :: Matches(FullPattern(p), s) <==> InLanguage(p.tail.items, s)) <==>
      !EndsInEscapedDollar(p)
  {
    hide Matches, InLanguage, FullPattern;
    if EndsInEscapedDollar(p) {
      var w := Samples(p.tail.items);
      var s := w + "x";
      SomeMember(p.tail.items);
      assert s[..|w|] == w;
      FullMatchMeaning(p, s);
      if InLanguage(p.tail.items, s) {
        LastIsDollar(p.tail.items, s);
      }
    } else {
      forall s: string
        ensures Matches(FullPattern(p), s) <==> InLanguage(p.tail.items, s)
      {
        FullMatchMeaning(p, s);
      }
    }
  }

  /** For example, the pattern `\$` fully matches "$x". */
  lemma {:induction false} EscapedDollarExample(p: Pattern)
    requires p == Pattern(false, Tail([Item(Atom(true, '$'), One)], false))
    ensures Parse("\\$") == Some(p) && Matches(FullPattern(p), "$x") && !InLanguage(p.tail.items, "$x")
  {
    hide InLanguage, Matches, Parse;
    DollarText(p);
    SomeMember(p.tail.items);
    assert Samples(p.tail.items) == "$" == "$x"[..1];
    FullMatchMeaning(p, "$x");
    if InLanguage(p.tail.items, "$x") {
      LastIsDollar(p.tail.items, "$x");
    }
  }

  lemma {:induction false} DollarText(p: Pattern)
    requires p == Pattern(false, Tail([Item(Atom(true, '$'), One)], false))
    ensures Parse("\\$") == Some(p)
  {
    hide Parse;
    assert Print(p) == "\\$";
    ParsePrint(p);
  }

  // ---- the syntax by character codes ----

  /** The ASCII codes of punctuation. */
  ghost predicate PunctCode(n: int) {
    33 <= n <= 47 || 58 <= n <= 64 || 91 <= n <= 96 || 123 <= n <= 126
  }

  ghost predicate EscapeLetterOf(c: char) {
    c == 'd' || c == 'D' || c == 'f' || c == 'n' || c == 'r' || c == 's' || c == 'S' || c == 't' || c == 'v' ||
    c == 'w' || c == 'W'
  }

  lemma {:induction false} PunctRange(ch: char)
    ensures AsciiPunct(ch) <==> PunctCode(ch as int)
  {
    var set_ := "^-!\"#$%&'()*+,./:;<=>?@[\\]_`{|}~";
    assert forall k :: 0 <= k < |set_| ==> PunctCode(set_[k] as int);
    if PunctCode(ch as int) {
      PunctFound(ch);
    }
  }

  lemma {:induction false} PunctFound(ch: char)
    requires PunctCode(ch as int)
    ensures ch in "^-!\"#$%&'()*+,./:;<=>?@[\\]_`{|}~"
  {
  }

  lemma {:induction false} LetterSet(c: char)
    ensures InSet(c, "dDfnrsStvwW") <==> EscapeLetterOf(c)
  {
  }

  /** What an item alone matches. */
  lemma {:induction false} OneItem(item: Item, w: string)
    ensures InLanguage([item], w) <==> Times(item.count, |w|) && Every(item.atom, w)
  {
    assert [item][1..] == [];
    assert w[..|w|] == w && w[|w|..] == "";
    if InLanguage([item], w) {
      var k := SplitWitness([item], w);
      assert w[k..] == "" && k == |w|;
    } else if Times(item.count, |w|) && Every(item.atom, w) {
      assert InLanguage([item][1..], w[|w|..]);
      assert SplitAt([item], w, |w|);
    }
  }

  /** A backslash and a character are valid exactly for punctuation and eleven letters. */
  lemma {:induction false} EscapeIsValid(c: char)
    ensures Parse(['\\', c]).Some? <==> PunctCode(c as int) || EscapeLetterOf(c)
    ensures Parse(['\\', c]).Some? ==> Parse(['\\', c]).value == Pattern(false, Tail([Item(Atom(true, c), One)], false))
  {
    hide AsciiPunct, InSet, ParseTail, PunctCode, EscapeLetterOf;
    PunctRange(c);
    LetterSet(c);
    var s := ['\\', c];
    ParseStep(s);
    assert s[1..] == [c] && s[1..][1..] == "";
    NotRepeated([c]);
    EmptyParsed();
  }

  lemma {:induction false} NotRepeated(s: string)
    requires |s| == 1
    ensures !IsRepeat(CharAt(s, 1))
  {
  }

  lemma {:induction false} EmptyParsed()
    ensures ParseTail("") == Some(Tail([], false))
  {
  }

  /** What each escape matches, by character codes. */
  lemma {:induction false} EscapeMeaning(c: char, w: string)
    requires PunctCode(c as int) || EscapeLetterOf(c)
    ensures Parse(['\\', c]).Some? && InLanguage(Parse(['\\', c]).value.tail.items, w) <==>
      |w| == 1 && var n := w[0] as int;
        && (c == 'd' ==> 48 <= n <= 57)
        && (c == 'D' ==> !(48 <= n <= 57))
        && (c == 's' ==> n == 32 || 9 <= n <= 13)
        && (c == 'S' ==> !(n == 32 || 9 <= n <= 13))
        && (c == 'w' ==> 97 <= n <= 122 || 65 <= n <= 90 || 48 <= n <= 57 || n == 95)
        && (c == 'W' ==> !(97 <= n <= 122 || 65 <= n <= 90 || 48 <= n <= 57 || n == 95))
        && (c == 'f' ==> n == 12) && (c == 'n' ==> n == 10) && (c == 'r' ==> n == 13) && (c == 't' ==> n == 9)
        && (c == 'v' ==> n == 11) && (PunctCode(c as int) ==> n == c as int)
  {
    hide Parse, InLanguage;
    EscapeIsValid(c);
    OneItem(Item(Atom(true, c), One), w);
  }

  /** A single character is valid exactly if it is no repetition, bracket, bar or backslash. */
  lemma {:induction false} SingleIsValid(c: char)
    ensures Parse([c]).Some? <==>
      c != '?' && c != '*' && c != '+' && c != '(' && c != ')' && c != '[' && c != ']' && c != '{' && c != '}' &&
      c != '|' && c != '\\'
  {
    hide ParseTail;
    if c == '^' {
      EmptyParsed();
      assert [c][1..] == "";
    } else if c == '$' {
      DollarParsed([c]);
    } else {
      ParseStep([c]);
      assert [c][1..] == "";
      NotRepeated([c]);
      EmptyParsed();
      SpecialChars(c);
    }
  }

  lemma {:induction false} SpecialChars(c: char)
    ensures Special(c) <==>
      c == '^' || c == '$' || c == '?' || c == '*' || c == '+' || c == '(' || c == ')' || c == '[' || c == ']' ||
      c == '{' || c == '}' || c == '|' || c == '\\'
  {
  }

  /** The text of one plain atom, with its repetition and the anchors around it. */
  lemma {:induction false} PlainText(c: char, count: Count, atStart: bool, atEnd: bool)
    requires !Special(c)
    ensures var p := Pattern(atStart, Tail([Item(Atom(false, c), count)], atEnd));
      Parse((if atStart then "^" else "") + [c] + PrintCount(count) + (if atEnd then "$" else "")) == Some(p)
  {
    hide Parse, Special;
    var p := Pattern(atStart, Tail([Item(Atom(false, c), count)], atEnd));
    assert Tail(p.tail.items[1..], atEnd) == Tail([], atEnd);
    assert PrintTail(Tail([], atEnd)) == (if atEnd then "$" else "");
    assert Print(p) == (if atStart then "^" else "") + [c] + PrintCount(count) + (if atEnd then "$" else "");
    ParsePrint(p);
  }

  /** A plain character matches itself, a period anything but a newline; ?, * and + say how often. */
  lemma {:induction false} RepeatMeaning(c: char, w: string)
    requires !Special(c)
    ensures var every := forall i :: 0 <= i < |w| ==> if c == '.' then w[i] as int != 10 else w[i] == c;
      && Parse([c]).Some? && Parse([c, '?']).Some? && Parse([c, '*']).Some? && Parse([c, '+']).Some?
      && (InLanguage(Parse([c]).value.tail.items, w) <==> every && |w| == 1)
      && (InLanguage(Parse([c, '?']).value.tail.items, w) <==> every && |w| <= 1)
      && (InLanguage(Parse([c, '*']).value.tail.items, w) <==> every)
      && (InLanguage(Parse([c, '+']).value.tail.items, w) <==> every && |w| >= 1)
  {
    hide Parse, InLanguage, Special;
    PlainCounts(c);
    OneItem(Item(Atom(false, c), One), w);
    OneItem(Item(Atom(false, c), ZeroOrOne), w);
    OneItem(Item(Atom(false, c), ZeroOrMore), w);
    OneItem(Item(Atom(false, c), OneOrMore), w);
  }

  lemma {:induction false} PlainCounts(c: char)
    requires !Special(c)
    ensures Parse([c]) == Some(Pattern(false, Tail([Item(Atom(false, c), One)], false)))
    ensures Parse([c, '?']) == Some(Pattern(false, Tail([Item(Atom(false, c), ZeroOrOne)], false)))
    ensures Parse([c, '*']) == Some(Pattern(false, Tail([Item(Atom(false, c), ZeroOrMore)], false)))
    ensures Parse([c, '+']) == Some(Pattern(false, Tail([Item(Atom(false, c), OneOrMore)], false)))
  {
    hide Parse, Special;
    PlainText(c, One, false, false);
    PlainText(c, ZeroOrOne, false, false);
    PlainText(c, ZeroOrMore, false, false);
    PlainText(c, OneOrMore, false, false);
    assert "" + [c] + "" + "" == [c] && "" + [c] + "?" + "" == [c, '?'];
    assert "" + [c] + "*" + "" == [c, '*'] && "" + [c] + "+" + "" == [c, '+'];
  }

  /** A literal character is searched for anywhere, at the start, at the end, or as the whole string. */
  lemma {:induction false} AnchorMeaning(c: char, s: string)
    requires !Special(c) && c != '.'
    ensures Parse([c]).Some? && (Matches(Parse([c]).value, s) <==> c in s)
    ensures Parse(['^', c]).Some? && (Matches(Parse(['^', c]).value, s) <==> s != "" && s[0] == c)
    ensures Parse([c, '$']).Some? && (Matches(Parse([c, '$']).value, s) <==> s != "" && s[|s| - 1] == c)
    ensures Parse(['^', c, '$']).Some? && (Matches(Parse(['^', c, '$']).value, s) <==> s == [c])
  {
    hide Parse, Special, Matches;
    PlainText(c, One, false, false);
    PlainText(c, One, true, false);
    PlainText(c, One, false, true);
    PlainText(c, One, true, true);
    assert "" + [c] + "" + "" == [c] && "^" + [c] + "" + "" == ['^', c];
    assert "" + [c] + "" + "$" == [c, '$'] && "^" + [c] + "" + "$" == ['^', c, '$'];
    LiteralMatches(c, false, false, s);
    LiteralMatches(c, true, false, s);
    LiteralMatches(c, false, true, s);
    LiteralMatches(c, true, true, s);
  }

  lemma {:induction false} LiteralMatches(c: char, atStart: bool, atEnd: bool, s: string)
    requires c != '.'
    ensures Matches(Pattern(atStart, Tail([Item(Atom(false, c), One)], atEnd)), s) <==>
      exists i | 0 <= i < |s| :: s[i] == c && (atStart ==> i == 0) && (atEnd ==> i == |s| - 1)
  {
    hide InLanguage;
    var items := [Item(Atom(false, c), One)];
    forall i, j | 0 <= i <= j <= |s|
      ensures InLanguage(items, s[i..j]) <==> j == i + 1 && s[i] == c
    {
      OneItem(items[0], s[i..j]);
    }
    if i :| 0 <= i < |s| && s[i] == c && (atStart ==> i == 0) && (atEnd ==> i == |s| - 1) {
      assert InLanguage(items, s[i..i + 1]);
    }
  }
}
