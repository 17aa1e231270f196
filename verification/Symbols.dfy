/** Listing symbols: from the text that `nm` prints to the set of names in it. */
module SymbolListing {

  /** Unicode's `White_Space`. */
  predicate IsWhitespace(c: char) {
    || '\U{9}' <= c <= '\U{D}' || c == ' ' || c == '\U{85}' || c == '\U{A0}' || c == '\U{1680}'
    || '\U{2000}' <= c <= '\U{200A}' || c == '\U{2028}' || c == '\U{2029}' || c == '\U{202F}'
    || c == '\U{205F}' || c == '\U{3000}'
  }

  function IndexOf(s: string, p: char -> bool): (i: nat)
    ensures i <= |s| && (i < |s| ==> p(s[i])) && forall j :: 0 <= j < i ==> !p(s[j])
    decreases |s|
  {
    if s == "" || p(s[0]) then 0 else 1 + IndexOf(s[1..], p)
  }

  /** The newline-terminated lines of a text, and its unterminated rest if any. */
  function Lines(s: string): seq<string>
    decreases |s|
  {
    var i := IndexOf(s, c => c == '\n');
    if s == "" then [] else if i == |s| then [s] else [s[..i]] + Lines(s[i + 1..])
  }

  function TrimStart(s: string): string {
    s[IndexOf(s, c => !IsWhitespace(c))..]
  }

  function TrimEnd(s: string): (t: string)
    ensures t <= s && (t != "" ==> !IsWhitespace(t[|t| - 1]))
    ensures forall j :: |t| <= j < |s| ==> IsWhitespace(s[j])
    decreases |s|
  {
    if s == "" || !IsWhitespace(s[|s| - 1]) then s else TrimEnd(s[..|s| - 1])
  }

  function Trim(s: string): string {
    TrimEnd(TrimStart(s))
  }

  predicate EndsWithColon(s: string) {
    s != "" && s[|s| - 1] == ':'
  }

  function FirstToken(s: string): string {
    var t := TrimStart(s);
    t[..IndexOf(t, IsWhitespace)]
  }

  /** The names listed by one trimmed line: none for a header or a blank. */
  function Listed(line: string): set<string> {
    var trimmed := Trim(line);
    if EndsWithColon(trimmed) || FirstToken(trimmed) == "" then {} else {FirstToken(trimmed)}
  }

  function ListLines(lines: seq<string>): set<string>
    decreases |lines|
  {
    if lines == [] then {} else Listed(lines[0]) + ListLines(lines[1..])
  }

  function List(output: string): set<string> {
    ListLines(Lines(output))
  }

  // ---------------------------------------------------------------- what nm prints

  /** `nm --format=posix`: an archive member's header, or a name, a blank, and its type, value and size. */
  datatype NmLine = Header(member: string) | Symbol(indent: string, name: string, gap: char, rest: string)

  predicate IsBlank(c: char) {
    c == ' ' || c == '\t'
  }

  predicate IsVisible(c: char) {
    '!' <= c <= '~' || !IsWhitespace(c)
  }

  predicate WellFormed(line: NmLine) {
    match line
    case Header(member) => '\n' !in member
    case Symbol(indent, name, gap, rest) =>
      && (forall i :: 0 <= i < |indent| ==> IsBlank(indent[i])) && IsBlank(gap)
      && name != "" && (forall i :: 0 <= i < |name| ==> IsVisible(name[i])) && name[|name| - 1] != ':'
      && '\n' !in rest && ':' !in rest
  }

  function Text(line: NmLine): string {
    match line
    case Header(member) => member + ":"
    case Symbol(indent, name, gap, rest) => indent + name + [gap] + rest
  }

  function Render(lines: seq<NmLine>): string
    decreases |lines|
  {
    if lines == [] then "" else Text(lines[0]) + "\n" + Render(lines[1..])
  }

  function Names(lines: seq<NmLine>): set<string> {
    set i | 0 <= i < |lines| && lines[i].Symbol? :: lines[i].name
  }

  /** Listing recovers exactly the symbol names among the interleaved headers. */
  lemma {:induction false} ListRecoversNames(lines: seq<NmLine>)
    requires forall i :: 0 <= i < |lines| ==> WellFormed(lines[i])
    ensures List(Render(lines)) == Names(lines)
    decreases |lines|
  {
    if lines != [] {
      var line, rest := lines[0], lines[1..];
      ListRecoversNames(rest);
      ListedOfText(line);
      LinesCons(Text(line), Render(rest));
      NamesCons(lines);
      var all := Lines(Render(lines));
      assert all == [Text(line)] + Lines(Render(rest)) && all[1..] == Lines(Render(rest));
    }
  }

  lemma NamesCons(lines: seq<NmLine>)
    requires lines != []
    ensures Names(lines) == (if lines[0].Symbol? then {lines[0].name} else {}) + Names(lines[1..])
  {
    var rest := lines[1..];
    forall n
      ensures n in Names(lines) <==> (lines[0].Symbol? && n == lines[0].name) || n in Names(rest)
    {
      if n in Names(lines) {
        var i :| 0 <= i < |lines| && lines[i].Symbol? && lines[i].name == n;
        assert i > 0 ==> rest[i - 1] == lines[i];
      }
      if n in Names(rest) {
        var i :| 0 <= i < |rest| && rest[i].Symbol? && rest[i].name == n;
        assert lines[i + 1] == rest[i];
      }
    }
  }

  lemma LinesCons(line: string, rest: string)
    requires '\n' !in line
    ensures Lines(line + "\n" + rest) == [line] + Lines(rest)
  {
    var s := line + "\n" + rest;
    assert s[|line|] == '\n';
    assert IndexOf(s, c => c == '\n') == |line|;
    assert s[..|line|] == line && s[|line| + 1..] == rest;
  }

  lemma ListedOfText(line: NmLine)
    requires WellFormed(line)
    ensures '\n' !in Text(line)
    ensures Listed(Text(line)) == if line.Symbol? then {line.name} else {}
  {
    NoNewlineInText(line);
    if line.Symbol? {
      SymbolListsItsName(line);
    } else {
      HeaderListsNothing(line.member);
    }
  }

  lemma HeaderListsNothing(member: string)
    ensures Listed(member + ":") == {}
  {
    var text := member + ":";
    var start := TrimStart(text);
    assert text[|text| - 1] == ':';
    assert start[|start| - 1] == ':';
    assert Trim(text) == start;
  }

  lemma SymbolListsItsName(line: NmLine)
    requires WellFormed(line) && line.Symbol?
    ensures Listed(Text(line)) == {line.name}
  {
    TrimmedText(line);
    TokenOf(Trim(Text(line)), line.name);
  }

  lemma TrimmedText(line: NmLine)
    requires WellFormed(line) && line.Symbol?
    ensures var trimmed := Trim(Text(line));
            && line.name <= trimmed && !EndsWithColon(trimmed)
            && (|trimmed| > |line.name| ==> IsWhitespace(trimmed[|line.name|]))
  {
    var tail := line.name + [line.gap] + line.rest;
    assert tail[0] == line.name[0];
    IndentIsTrimmed(line.indent, tail);
    TextOfSymbol(line);
    NameIsKept(line.name, line.gap, line.rest);
  }

  lemma TextOfSymbol(line: NmLine)
    requires line.Symbol?
    ensures Text(line) == line.indent + (line.name + [line.gap] + line.rest)
  {
  }

  lemma NoNewlineInText(line: NmLine)
    requires WellFormed(line)
    ensures '\n' !in Text(line)
  {
    if line.Symbol? {
      forall c | c in Text(line)
        ensures c != '\n'
      {
        assert c in line.indent || c in line.name || c == line.gap || c in line.rest;
      }
    }
  }

  lemma IndentIsTrimmed(indent: string, tail: string)
    requires forall i :: 0 <= i < |indent| ==> IsBlank(indent[i])
    requires tail != "" && !IsWhitespace(tail[0])
    ensures TrimStart(indent + tail) == tail
  {
    var text := indent + tail;
    assert text[|indent|] == tail[0];
    assert forall i :: 0 <= i < |indent| ==> text[i] == indent[i];
    assert IndexOf(text, c => !IsWhitespace(c)) == |indent|;
    assert text[|indent|..] == tail;
  }

  lemma NameIsKept(name: string, gap: char, rest: string)
    requires name != "" && !IsWhitespace(name[|name| - 1]) && name[|name| - 1] != ':'
    requires IsBlank(gap) && ':' !in rest
    ensures var trimmed := TrimEnd(name + [gap] + rest);
            && name <= trimmed && !EndsWithColon(trimmed)
            && (|trimmed| > |name| ==> IsWhitespace(trimmed[|name|]))
  {
    var text := name + [gap] + rest;
    var trimmed := TrimEnd(text);
    assert text[|name| - 1] == name[|name| - 1] && text[|name|] == gap;
    assert |trimmed| >= |name| && trimmed[..|name|] == text[..|name|] == name;
    var last := |trimmed| - 1;
    assert last > |name| ==> text[last] in rest;
    assert |trimmed| > |name| ==> trimmed[|name|] == gap;
  }

  lemma TokenOf(text: string, name: string)
    requires name <= text && name != "" && forall i :: 0 <= i < |name| ==> !IsWhitespace(name[i])
    requires |text| > |name| ==> IsWhitespace(text[|name|])
    ensures FirstToken(text) == name
  {
    assert text[0] == name[0];
    assert TrimStart(text) == text;
    var i := IndexOf(text, IsWhitespace);
    assert forall j :: 0 <= j < |name| ==> text[j] == name[j];
    assert i == |name|;
  }
}

/** Prefixing the symbols of the TPM archives so that a binary can link them
    alongside another copy of the same library. */
module Symbols {
  import opened SymbolListing
  import opened Wrappers

  const SYMBOL_PREFIX := "ms_tcg_tpm_185_"
  const PLATFORM_SYMBOL_PREFIX := "_plat"
  const SYMCRYPT_PREFIX := "SymCrypt"

  /** The global names an archive defines, and those it references. */
  datatype Archive = Archive(defined: set<string>, undefined: set<string>)

  predicate IsAlphaUnderscore(c: char) {
    'a' <= c <= 'z' || 'A' <= c <= 'Z' || c == '_'
  }

  predicate IsCIdentifier(s: string) {
    && s != "" && IsAlphaUnderscore(s[0])
    && forall i :: 1 <= i < |s| ==> IsAlphaUnderscore(s[i]) || '0' <= s[i] <= '9'
  }

  function Defined(archives: seq<Archive>): set<string> {
    set i, s | 0 <= i < |archives| && s in archives[i].defined :: s
  }

  function Undefined(archives: seq<Archive>): set<string> {
    set i, s | 0 <= i < |archives| && s in archives[i].undefined :: s
  }

  predicate Retained(s: string) {
    IsCIdentifier(s) && !(SYMCRYPT_PREFIX <= s)
  }

  predicate IsLetterDigitOrUnderscore(c: char) {
    'a' <= c <= 'z' || 'A' <= c <= 'Z' || '0' <= c <= '9' || c == '_'
  }

  /** The names that may be renamed: C identifiers that do not belong to SymCrypt. */
  predicate IsPrefixable(s: string) {
    && s != "" && !('0' <= s[0] <= '9') && !("SymCrypt" <= s)
    && forall i :: 0 <= i < |s| ==> IsLetterDigitOrUnderscore(s[i])
  }

  lemma RetainedExactlyIf(s: string)
    ensures Retained(s) <==> IsPrefixable(s)
  {
    if Retained(s) {
      forall i | 0 <= i < |s|
        ensures IsLetterDigitOrUnderscore(s[i])
      {
        if i > 0 {
          assert IsAlphaUnderscore(s[i]) || '0' <= s[i] <= '9';
        }
      }
    }
    if IsPrefixable(s) {
      assert IsLetterDigitOrUnderscore(s[0]);
      forall i | 1 <= i < |s|
        ensures IsAlphaUnderscore(s[i]) || '0' <= s[i] <= '9'
      {
        assert IsLetterDigitOrUnderscore(s[i]);
      }
    }
  }

  /** The symbols that are renamed: what the archives define, and the platform
      callbacks they leave to be provided. */
  function Renamed(defined: set<string>, undefined: set<string>): set<string> {
    set s | s in defined + undefined && (s in defined || PLATFORM_SYMBOL_PREFIX <= s) && Retained(s)
  }

  function Rename(renamed: set<string>, s: string): string {
    if s in renamed then SYMBOL_PREFIX + s else s
  }

  function RenameAll(renamed: set<string>, names: set<string>): set<string> {
    set s | s in names :: Rename(renamed, s)
  }

  /** `objcopy --redefine-syms` on each archive. */
  function Namespaced(renamed: set<string>, archives: seq<Archive>): (r: seq<Archive>)
    ensures |r| == |archives|
  {
    seq(|archives|, i requires 0 <= i < |archives| =>
      Archive(RenameAll(renamed, archives[i].defined), RenameAll(renamed, archives[i].undefined)))
  }

  /** The first archive in link order that defines a name. */
  function Resolve(archives: seq<Archive>, s: string): (r: Option<nat>)
    ensures r.Some? ==> r.value < |archives| && s in archives[r.value].defined
    ensures forall j :: 0 <= j < |archives| && s in archives[j].defined ==> r.Some? && r.value <= j
    decreases |archives|
  {
    if archives == [] then None
    else if s in archives[0].defined then Some(0)
    else match Resolve(archives[1..], s)
         case None => None
         case Some(i) => Some(i + 1)
  }

  // ---------------------------------------------------------------- linking

  lemma PrefixedIsRetained(s: string)
    requires Retained(s)
    ensures Retained(SYMBOL_PREFIX + s)
    ensures !(PLATFORM_SYMBOL_PREFIX <= SYMBOL_PREFIX + s)
  {
    var p := SYMBOL_PREFIX + s;
    assert p[0] == 'm';
    assert |SYMBOL_PREFIX| == 15 && IsCIdentifier(SYMBOL_PREFIX);
    forall i | 1 <= i < |p|
      ensures IsAlphaUnderscore(p[i]) || '0' <= p[i] <= '9'
    {
      if i < 15 {
        assert p[i] == SYMBOL_PREFIX[i];
      } else {
        assert p[i] == s[i - 15];
      }
    }
  }

  lemma PrefixInjective(s: string, t: string)
    requires SYMBOL_PREFIX + s == SYMBOL_PREFIX + t
    ensures s == t
  {
    assert s == (SYMBOL_PREFIX + s)[|SYMBOL_PREFIX|..];
    assert t == (SYMBOL_PREFIX + t)[|SYMBOL_PREFIX|..];
  }

  /** The rename keeps names apart exactly when no name that keeps its spelling
      already is the prefixed form of one that is renamed. */
  lemma RenameIsInjective(names: set<string>, renamed: set<string>)
    requires renamed <= names
    ensures (forall s, t :: s in names && t in names && Rename(renamed, s) == Rename(renamed, t) ==> s == t)
            <==> !exists s :: s in renamed && SYMBOL_PREFIX + s in names && SYMBOL_PREFIX + s !in renamed
  {
    forall s, t | s in renamed && t in renamed && Rename(renamed, s) == Rename(renamed, t)
      ensures s == t
    {
      PrefixInjective(s, t);
    }
    if exists s :: s in renamed && SYMBOL_PREFIX + s in names && SYMBOL_PREFIX + s !in renamed {
      var s :| s in renamed && SYMBOL_PREFIX + s in names && SYMBOL_PREFIX + s !in renamed;
      assert Rename(renamed, s) == Rename(renamed, SYMBOL_PREFIX + s);
      assert |SYMBOL_PREFIX + s| > |s|;
    }
  }

  /** A reference, left under its own name, that some renamed definition would take over. */
  predicate Captures(archives: seq<Archive>, renamed: set<string>, s: string) {
    s in renamed && s in Defined(archives)
    && SYMBOL_PREFIX + s in Undefined(archives) && SYMBOL_PREFIX + s !in renamed
  }

  /** Whether an archive defines a name after renaming, in terms of before. */
  lemma DefinedAfter(archives: seq<Archive>, i: nat, s: string)
    requires i < |archives| && s in Defined(archives) + Undefined(archives)
    ensures var renamed := Renamed(Defined(archives), Undefined(archives));
            Rename(renamed, s) in Namespaced(renamed, archives)[i].defined
            <==> || s in archives[i].defined
                 || (s !in renamed && exists x :: x in archives[i].defined && x in renamed && SYMBOL_PREFIX + x == s)
  {
    var renamed := Renamed(Defined(archives), Undefined(archives));
    var after := Namespaced(renamed, archives)[i].defined;
    if Rename(renamed, s) in after {
      var x :| x in archives[i].defined && Rename(renamed, x) == Rename(renamed, s);
      if x in renamed && s in renamed {
        PrefixInjective(x, s);
      } else if s in renamed {
        assert x in Defined(archives);
        PrefixedIsRetained(s);
      }
    }
    if s !in renamed && exists x :: x in archives[i].defined && x in renamed && SYMBOL_PREFIX + x == s {
      var x :| x in archives[i].defined && x in renamed && SYMBOL_PREFIX + x == s;
      assert Rename(renamed, x) == s;
    }
  }

  /** Namespacing preserves linking: every name is satisfied by the same first
      archive as before, exactly when no reference is captured. */
  lemma NamespacingPreservesLinking(archives: seq<Archive>)
    ensures var renamed := Renamed(Defined(archives), Undefined(archives));
            (forall s :: s in Defined(archives) + Undefined(archives) ==>
               Resolve(Namespaced(renamed, archives), Rename(renamed, s)) == Resolve(archives, s))
            <==> !exists s :: Captures(archives, renamed, s)
  {
    var renamed := Renamed(Defined(archives), Undefined(archives));
    var after := Namespaced(renamed, archives);
    if !exists s :: Captures(archives, renamed, s) {
      forall s | s in Defined(archives) + Undefined(archives)
        ensures Resolve(after, Rename(renamed, s)) == Resolve(archives, s)
      {
        forall i | 0 <= i < |archives|
          ensures Rename(renamed, s) in after[i].defined <==> s in archives[i].defined
        {
          UncapturedStays(archives, i, s);
        }
        SameResolution(after, Rename(renamed, s), archives, s);
      }
    } else {
      var x :| Captures(archives, renamed, x);
      CapturedMoves(archives, x);
    }
  }

  lemma UncapturedStays(archives: seq<Archive>, i: nat, s: string)
    requires i < |archives| && s in Defined(archives) + Undefined(archives)
    requires !exists x :: Captures(archives, Renamed(Defined(archives), Undefined(archives)), x)
    ensures var renamed := Renamed(Defined(archives), Undefined(archives));
            Rename(renamed, s) in Namespaced(renamed, archives)[i].defined <==> s in archives[i].defined
  {
    var renamed := Renamed(Defined(archives), Undefined(archives));
    DefinedAfter(archives, i, s);
    if s !in renamed && exists x :: x in archives[i].defined && x in renamed && SYMBOL_PREFIX + x == s {
      var x :| x in archives[i].defined && x in renamed && SYMBOL_PREFIX + x == s;
      PrefixedIsRetained(x);
      assert !Captures(archives, renamed, x);
    }
  }

  lemma CapturedMoves(archives: seq<Archive>, x: string)
    requires Captures(archives, Renamed(Defined(archives), Undefined(archives)), x)
    ensures var renamed := Renamed(Defined(archives), Undefined(archives));
            var s := SYMBOL_PREFIX + x;
            Resolve(archives, s) == None && Resolve(Namespaced(renamed, archives), Rename(renamed, s)) != None
  {
    var renamed := Renamed(Defined(archives), Undefined(archives));
    var s := SYMBOL_PREFIX + x;
    PrefixedIsRetained(x);
    var i :| 0 <= i < |archives| && x in archives[i].defined;
    DefinedAfter(archives, i, s);
    assert Resolve(archives, s).Some? ==> s in Defined(archives);
  }

  lemma SameResolution(a: seq<Archive>, s: string, b: seq<Archive>, t: string)
    requires |a| == |b| && forall i :: 0 <= i < |a| ==> (s in a[i].defined <==> t in b[i].defined)
    ensures Resolve(a, s) == Resolve(b, t)
  {
  }

  lemma {:induction false} ResolveOfConcat(ours: seq<Archive>, others: seq<Archive>, s: string)
    ensures Resolve(ours + others, s)
         == match Resolve(ours, s)
            case Some(i) => Some(i)
            case None => match Resolve(others, s)
                         case None => None
                         case Some(i) => Some(|ours| + i)
    decreases |ours|
  {
    if ours == [] {
      assert ours + others == others;
    } else {
      var linked := ours + others;
      assert linked[0] == ours[0] && linked[1..] == ours[1..] + others;
      if s !in ours[0].defined {
        ResolveOfConcat(ours[1..], others, s);
        assert Resolve(linked, s) == match Resolve(linked[1..], s) case None => None case Some(i) => Some(i + 1);
      }
    }
  }

  predicate Unprefixed(archives: seq<Archive>) {
    forall i, x :: 0 <= i < |archives| && x in archives[i].defined ==> !(SYMBOL_PREFIX <= x)
  }

  /** The point of it all: linked ahead of another, unprefixed copy of the library,
      the archives keep to themselves. A renamed name, be it defined or a platform
      callback that is only sought, resolves as without the other copy; a name
      left alone does so too where the archives themselves satisfy it, and
      otherwise falls to the other copy. And no C symbol of the other copy is
      satisfied by the archives. */
  lemma CopiesCoexist(archives: seq<Archive>, others: seq<Archive>, s: string, t: string)
    requires !exists x :: Captures(archives, Renamed(Defined(archives), Undefined(archives)), x)
    requires s in Defined(archives) + Undefined(archives)
    requires IsPrefixable(t) && !(SYMBOL_PREFIX <= t)
    ensures var renamed := Renamed(Defined(archives), Undefined(archives));
            var linked := Namespaced(renamed, archives) + others;
            && (s in renamed && Unprefixed(others) ==> Resolve(linked, Rename(renamed, s)) == Resolve(archives, s))
            && Resolve(linked, Rename(renamed, s)) == Behind(archives, s, others, Rename(renamed, s))
            && Resolve(linked, t) == match Resolve(others, t)
                                     case None => None
                                     case Some(i) => Some(|archives| + i)
  {
    var renamed := Renamed(Defined(archives), Undefined(archives));
    var ours := Namespaced(renamed, archives);
    assert Resolve(ours, Rename(renamed, s)) == Resolve(archives, s) by {
      NamespacingPreservesLinking(archives);
    }
    ResolveOfConcat(ours, others, Rename(renamed, s));
    OthersKeepTheirs(archives, others, t);
    if s in renamed && Unprefixed(others) {
      NothingPrefixed(others, s);
    }
  }

  lemma OthersKeepTheirs(archives: seq<Archive>, others: seq<Archive>, t: string)
    requires IsPrefixable(t) && !(SYMBOL_PREFIX <= t)
    ensures Resolve(Namespaced(Renamed(Defined(archives), Undefined(archives)), archives) + others, t)
         == match Resolve(others, t)
            case None => None
            case Some(i) => Some(|archives| + i)
  {
    RetainedExactlyIf(t);
    NothingForOthers(archives, t);
    ResolveOfConcat(Namespaced(Renamed(Defined(archives), Undefined(archives)), archives), others, t);
  }

  lemma NothingPrefixed(others: seq<Archive>, s: string)
    requires Unprefixed(others)
    ensures Resolve(others, SYMBOL_PREFIX + s) == None
  {
    assert SYMBOL_PREFIX <= SYMBOL_PREFIX + s;
  }

  /** Where `s` is found in some archives, or else `t` in others linked behind them. */
  function Behind(archives: seq<Archive>, s: string, others: seq<Archive>, t: string): Option<nat> {
    if Resolve(archives, s).Some? then Resolve(archives, s)
    else
      match Resolve(others, t)
      case None => None
      case Some(i) => Some(|archives| + i)
  }

  lemma NothingForOthers(archives: seq<Archive>, t: string)
    requires Retained(t) && !(SYMBOL_PREFIX <= t)
    ensures Resolve(Namespaced(Renamed(Defined(archives), Undefined(archives)), archives), t) == None
  {
    var renamed := Renamed(Defined(archives), Undefined(archives));
    forall i, x | 0 <= i < |archives| && x in archives[i].defined
      ensures Rename(renamed, x) != t
    {
      assert x in Defined(archives);
      assert SYMBOL_PREFIX <= SYMBOL_PREFIX + x;
    }
  }

  /** In the archives that are linked, every C definition carries the prefix, but
      for SymCrypt's, and so does every platform callback that is sought; every
      other name is one that was there before. */
  lemma WhatIsPrefixed(archives: seq<Archive>, s: string)
    ensures var after := Namespaced(Renamed(Defined(archives), Undefined(archives)), archives);
            && (s in Defined(after) ==> SYMBOL_PREFIX <= s || !IsPrefixable(s))
            && (s in Undefined(after) && "_plat" <= s ==> !IsPrefixable(s))
            && (s in Defined(after) + Undefined(after) && !(SYMBOL_PREFIX <= s) ==>
                  s in Defined(archives) + Undefined(archives))
  {
    RetainedExactlyIf(s);
    var renamed := Renamed(Defined(archives), Undefined(archives));
    var after := Namespaced(renamed, archives);
    if s in Defined(after) {
      var i :| 0 <= i < |archives| && s in after[i].defined;
      var x :| x in archives[i].defined && Rename(renamed, x) == s;
      assert x in Defined(archives);
      assert SYMBOL_PREFIX <= SYMBOL_PREFIX + x;
    }
    if s in Undefined(after) {
      var i :| 0 <= i < |archives| && s in after[i].undefined;
      var x :| x in archives[i].undefined && Rename(renamed, x) == s;
      assert x in Undefined(archives);
      assert SYMBOL_PREFIX <= SYMBOL_PREFIX + x;
      if x in renamed {
        PrefixedIsRetained(x);
      }
    }
  }

  /** A name that belongs to SymCrypt, or is no C identifier, keeps its spelling: it
      is defined and sought by exactly the archives that did so before, and an
      external archive's reference to it resolves as before. */
  lemma LeftAlone(archives: seq<Archive>, external: seq<Archive>, s: string)
    requires !IsPrefixable(s)
    ensures var after := Namespaced(Renamed(Defined(archives), Undefined(archives)), archives);
            && (forall i :: 0 <= i < |archives| ==>
                  && (s in after[i].defined <==> s in archives[i].defined)
                  && (s in after[i].undefined <==> s in archives[i].undefined))
            && Resolve(after + external, s) == Resolve(archives + external, s)
  {
    var renamed := Renamed(Defined(archives), Undefined(archives));
    var after := Namespaced(renamed, archives);
    RetainedExactlyIf(s);
    forall x | x in renamed
      ensures SYMBOL_PREFIX + x != s
    {
      PrefixedIsRetained(x);
    }
    assert Rename(renamed, s) == s;
    SameResolution(after, s, archives, s);
    ResolveOfConcat(after, external, s);
    ResolveOfConcat(archives, external, s);
  }

  /** What a name is called after renaming: prefixed if the archives define it or
      it is a platform callback, and it is a C identifier and not SymCrypt's. */
  function Spelling(archives: seq<Archive>, s: string): string {
    if (s in Defined(archives) || "_plat" <= s) && IsPrefixable(s) then "ms_tcg_tpm_185_" + s else s
  }

  /** Every archive defines and seeks, under their new names, exactly what it did before. */
  lemma NamesAfter(archives: seq<Archive>, i: nat)
    requires i < |archives|
    ensures var after := Namespaced(Renamed(Defined(archives), Undefined(archives)), archives)[i];
            && (forall s :: s in archives[i].defined ==> Spelling(archives, s) in after.defined)
            && (forall s :: s in archives[i].undefined ==> Spelling(archives, s) in after.undefined)
            && (forall t :: t in after.defined ==> exists s :: s in archives[i].defined && t == Spelling(archives, s))
            && (forall t :: t in after.undefined ==> exists s :: s in archives[i].undefined && t == Spelling(archives, s))
  {
    var renamed := Renamed(Defined(archives), Undefined(archives));
    forall s | s in archives[i].defined || s in archives[i].undefined
      ensures Rename(renamed, s) == Spelling(archives, s)
    {
      assert s in Defined(archives) || s in Undefined(archives);
      RenamedExactlyIf(Defined(archives), Undefined(archives), s);
    }
  }

  /** What is renamed, name by name. */
  lemma RenamedExactlyIf(defined: set<string>, undefined: set<string>, s: string)
    ensures s in Renamed(defined, undefined)
            <==> (s in defined || (s in undefined && "_plat" <= s)) && IsPrefixable(s)
  {
    RetainedExactlyIf(s);
  }

  // ---------------------------------------------------------------- the rename file

  function Line(s: string): string {
    s + " " + SYMBOL_PREFIX + s + "\n"
  }

  /** How the file is read: one pair a line, separated by the first blank. */
  function ParseLine(line: string): (string, string) {
    var i := IndexOf(line, c => c == ' ');
    if i == |line| then (line, "") else (line[..i], line[i + 1..])
  }

  function Parse(file: string): seq<(string, string)> {
    var lines := Lines(file);
    seq(|lines|, i requires 0 <= i < |lines| => ParseLine(lines[i]))
  }

  function Emit(symbols: seq<string>): string
    decreases |symbols|
  {
    if symbols == [] then "" else Line(symbols[0]) + Emit(symbols[1..])
  }

  lemma IdentifierHasNoBlank(s: string)
    requires IsCIdentifier(s)
    ensures ' ' !in s && '\n' !in s
  {
  }

  lemma {:induction false} LinesOfEmit(symbols: seq<string>)
    requires forall i :: 0 <= i < |symbols| ==> IsCIdentifier(symbols[i])
    ensures var lines := Lines(Emit(symbols));
            |lines| == |symbols|
            && forall i :: 0 <= i < |symbols| ==> lines[i] == symbols[i] + " " + SYMBOL_PREFIX + symbols[i]
    decreases |symbols|
  {
    if symbols != [] {
      var s, rest := symbols[0], symbols[1..];
      LinesOfEmit(rest);
      ParseLineOf(s);
      var line := s + " " + SYMBOL_PREFIX + s;
      LinesCons(line, Emit(rest));
      assert Emit(symbols) == line + "\n" + Emit(rest);
    }
  }

  /** Reading the emitted file recovers the renames, in order. */
  lemma ParseOfEmit(symbols: seq<string>)
    requires forall i :: 0 <= i < |symbols| ==> IsCIdentifier(symbols[i])
    ensures |Parse(Emit(symbols))| == |symbols|
    ensures forall i :: 0 <= i < |symbols| ==>
              Parse(Emit(symbols))[i] == (symbols[i], SYMBOL_PREFIX + symbols[i])
  {
    LinesOfEmit(symbols);
    forall i | 0 <= i < |symbols|
      ensures Parse(Emit(symbols))[i] == (symbols[i], SYMBOL_PREFIX + symbols[i])
    {
      ParseLineOf(symbols[i]);
    }
  }

  lemma ParseLineOf(s: string)
    requires IsCIdentifier(s)
    ensures var line := s + " " + SYMBOL_PREFIX + s;
            '\n' !in line && ParseLine(line) == (s, SYMBOL_PREFIX + s)
  {
    IdentifierHasNoBlank(s);
    var line := s + " " + SYMBOL_PREFIX + s;
    assert '\n' !in SYMBOL_PREFIX;
    assert line[|s|] == ' ';
    assert line[..|s|] == s;
    assert line[|s| + 1..] == SYMBOL_PREFIX + s;
    assert IndexOf(line, c => c == ' ') == |s|;
  }

  lemma {:induction false} EmitSnoc(symbols: seq<string>, s: string)
    ensures Emit(symbols + [s]) == Emit(symbols) + Line(s)
    decreases |symbols|
  {
    if symbols == [] {
      assert ([] + [s])[1..] == [];
    } else {
      EmitSnoc(symbols[1..], s);
      assert (symbols + [s])[1..] == symbols[1..] + [s];
    }
  }

  /** The file that is written, read back, holds exactly the renames, with no
      source or target twice, whatever the order they are written in. */
  method Renames(defined: set<string>, undefined: set<string>) returns (file: string)
    ensures var renames := Parse(file);
            && (forall s :: (s, "ms_tcg_tpm_185_" + s) in renames
                            <==> (s in defined || (s in undefined && "_plat" <= s)) && IsPrefixable(s))
            && (forall r :: r in renames ==> r.1 == "ms_tcg_tpm_185_" + r.0)
            && forall i, j :: 0 <= i < j < |renames| ==>
                 renames[i].0 != renames[j].0 && renames[i].1 != renames[j].1
  {
    var symbols := defined;
    symbols := symbols + set s | s in undefined && PLATFORM_SYMBOL_PREFIX <= s;
    symbols := set s | s in symbols && IsCIdentifier(s) && !(SYMCRYPT_PREFIX <= s);
    assert symbols == Renamed(defined, undefined);
    forall s
      ensures s in symbols <==> (s in defined || (s in undefined && "_plat" <= s)) && IsPrefixable(s)
    {
      RenamedExactlyIf(defined, undefined, s);
    }
    file := "";
    ghost var order := [];
    var rest := symbols;
    while rest != {}
      invariant rest <= symbols && file == Emit(order)
      invariant forall s :: s in order <==> s in symbols && s !in rest
      invariant forall i, j :: 0 <= i < j < |order| ==> order[i] != order[j]
      decreases rest
    {
      var symbol :| symbol in rest;
      EmitSnoc(order, symbol);
      file := file + (symbol + " " + SYMBOL_PREFIX + symbol + "\n");
      order := order + [symbol];
      rest := rest - {symbol};
    }
    FileOfOrder(symbols, order);
  }

  lemma FileOfOrder(symbols: set<string>, order: seq<string>)
    requires forall s :: s in order <==> s in symbols
    requires forall i, j :: 0 <= i < j < |order| ==> order[i] != order[j]
    requires forall s :: s in symbols ==> IsCIdentifier(s)
    ensures var renames := Parse(Emit(order));
            && (forall s :: s in symbols <==> (s, SYMBOL_PREFIX + s) in renames)
            && (forall r :: r in renames ==> r.1 == SYMBOL_PREFIX + r.0)
            && forall i, j :: 0 <= i < j < |renames| ==>
                 renames[i].0 != renames[j].0 && renames[i].1 != renames[j].1
  {
    forall i | 0 <= i < |order|
      ensures IsCIdentifier(order[i])
    {
      assert order[i] in order;
    }
    ParseOfEmit(order);
    var renames := Parse(Emit(order));
    forall s
      ensures s in symbols <==> (s, SYMBOL_PREFIX + s) in renames
    {
      if s in symbols {
        var i :| 0 <= i < |order| && order[i] == s;
        assert renames[i] == (s, SYMBOL_PREFIX + s);
      }
    }
    forall i, j | 0 <= i < j < |renames|
      ensures renames[i].0 != renames[j].0 && renames[i].1 != renames[j].1
    {
      if renames[i].1 == renames[j].1 {
        PrefixInjective(order[i], order[j]);
      }
    }
  }
}
