/** Command lines built from options and operands: scanning them gives these back. */
module ArgumentLists {
  import opened Wrappers
  import opened CStrings
  import opened LongOptions
  import opened Getopt

  /** An option's argument: in the same word as the option, or in the next one. */
  datatype Argument = Argument(text: string, joined: bool)

  /** An operand; letters in one word, the last of which may take an argument; a long option by
      its name or a beginning of it; or a word that names no long option, or several, perhaps
      with a value. */
  datatype Item =
    | Operand(word: string)
    | Letters(letters: string, arg: Option<Argument>)
    | LongName(index: nat, word: string, arg: Option<Argument>)
    | NoName(word: string, value: Option<string>)

  /** What an argument adds to its option's word, and the words it adds. */
  function Joined(arg: Option<Argument>, sign: string): string {
    if arg.Some? && arg.value.joined then sign + arg.value.text else ""
  }

  function Separate(arg: Option<Argument>): seq<string> {
    if arg.Some? && !arg.value.joined then [arg.value.text] else []
  }

  function Valued(word: string, value: Option<string>): string {
    if value.Some? then word + "=" + value.value else word
  }

  /** The words an item is written as. */
  function WordsOf(cfg: Config, item: Item): (r: seq<string>)
    requires Listed(cfg, item)
  {
    match item
    case Operand(word) => [word]
    case Letters(letters, arg) => ["-" + letters + Joined(arg, "")] + Separate(arg)
    case LongName(i, word, arg) => ["--" + (word + Joined(arg, "="))] + Separate(arg)
    case NoName(word, value) => ["--" + Valued(word, value)]
  }

  /** The event of a letter without argument. */
  function FlagEvent(options: string, c: char): Event {
    if NoOption(options, c) then Event(63, None, None, Some(c as int)) else Event(c as int, None, None, None)
  }

  /** The options that letters stand for; the last one with the argument. */
  function LetterEvents(options: string, letters: string, arg: Option<Argument>): seq<Event> {
    if letters == "" then []
    else if |letters| == 1 && arg.Some? then [Event(letters[0] as int, Some(arg.value.text), None, None)]
    else [FlagEvent(options, letters[0])] + LetterEvents(options, letters[1..], arg)
  }

  function EventsOf(cfg: Config, item: Item): seq<Event>
    requires Listed(cfg, item)
  {
    match item
    case Operand(word) => if cfg.allArgs then [Event(1, Some(word), None, None)] else []
    case Letters(letters, arg) => LetterEvents(cfg.options, letters, arg)
    case LongName(i, _, arg) => [LongEvent(cfg.options, cfg.table.value[i], i, arg)]
    case NoName(_, _) => [Event(63, None, None, Some(0))]
  }

  /** What the option string says behind a letter; nothing for letters it does not have. */
  function RuleOf(options: string, c: char): Option<string> {
    match StrChr(options, c) case None => None case Some(i) => Some(options[i + 1..])
  }

  /** A letter that is an option, and not one that introduces another form. */
  predicate IsOption(options: string, c: char) {
    && c != '-' && c != ':' && RuleOf(options, c).Some?
    && !(c == 'W' && RuleOf(options, c).value != "" && RuleOf(options, c).value[0] == ';')
  }

  /** A letter that is no option, nor introduces another form. */
  predicate NoOption(options: string, c: char) {
    c != '-' && (c == ':' || RuleOf(options, c).None?)
  }

  predicate TakesArgument(options: string, c: char) {
    IsOption(options, c) && RuleOf(options, c).value != "" && RuleOf(options, c).value[0] == ':'
  }

  predicate ArgumentOptional(options: string, c: char) {
    TakesArgument(options, c) && |RuleOf(options, c).value| > 1 && RuleOf(options, c).value[1] == ':'
  }

  predicate Flag(options: string, c: char) {
    NoOption(options, c) || (IsOption(options, c) && !TakesArgument(options, c))
  }

  predicate Flags(options: string, letters: string) {
    forall k :: 0 <= k < |letters| ==> Flag(options, letters[k])
  }

  /** Letters, of which the last takes the argument. */
  predicate GoodLetters(options: string, letters: string, arg: Option<Argument>) {
    && letters != ""
    && match arg
       case None =>
         Flags(options, letters[..|letters| - 1])
         && (Flag(options, letters[|letters| - 1]) || ArgumentOptional(options, letters[|letters| - 1]))
       case Some(a) =>
         && Flags(options, letters[..|letters| - 1]) && TakesArgument(options, letters[|letters| - 1])
         && (a.joined ==> a.text != "") && (!a.joined ==> !ArgumentOptional(options, letters[|letters| - 1]))
  }

  /** An item that can be written on a command line. */
  ghost predicate Good(cfg: Config, item: Item)
    requires Listed(cfg, item)
  {
    match item
    case Operand(word) =>
      && (!("-" <= word) || (word == "-" && '-' !in cfg.options))
      && (cfg.allArgs || cfg.permute)
    case Letters(letters, arg) => GoodLetters(cfg.options, letters, arg)
    case LongName(i, word, arg) =>
      && GoodLong(cfg.table.value, i, word, arg, false) && word + Joined(arg, "=") != ""
    case NoName(word, value) =>
      && '=' !in word && Valued(word, value) != ""
      && forall i: nat :: !Names(cfg.table.value, word, false, i)
  }

  /** Long options are known by their place in the table. */
  predicate Listed(cfg: Config, item: Item) {
    && (item.LongName? || item.NoName? ==> cfg.table.Some?)
    && (item.LongName? ==> item.index < |cfg.table.value|)
  }

  function AllWords(cfg: Config, items: seq<Item>): seq<string>
    requires forall k :: 0 <= k < |items| ==> Listed(cfg, items[k])
  {
    if items == [] then [] else WordsOf(cfg, items[0]) + AllWords(cfg, items[1..])
  }

  /** Operands are skipped unless every word is handed out. */
  predicate Skipped(cfg: Config, item: Item) {
    item.Operand? && !cfg.allArgs
  }

  /** A scan, preceded by an item. */
  function With(cfg: Config, item: Item, r: Outcome): Outcome
    requires Listed(cfg, item)
  {
    var words := WordsOf(cfg, item);
    if Skipped(cfg, item) then r.(operands := words + r.operands)
    else r.(events := EventsOf(cfg, item) + r.events, options := words + r.options)
  }

  function WithAll(cfg: Config, items: seq<Item>, r: Outcome): Outcome
    requires forall k :: 0 <= k < |items| ==> Listed(cfg, items[k])
  {
    if items == [] then r else With(cfg, items[0], WithAll(cfg, items[1..], r))
  }

  // ----- letters

  lemma FlagStep(cfg: Config, rest: seq<string>, off: nat)
    requires rest != [] && 0 < off < |rest[0]| && !cfg.longOnly
    requires Flag(cfg.options, rest[0][off])
    ensures var last := off + 1 == |rest[0]|;
      OptionStep(cfg, rest, off)
        == Emit(FlagEvent(cfg.options, rest[0][off]), if last then 1 else 0, if last then 0 else off + 1)
  {
    hide LongOutcome;
  }

  lemma ArgumentStep(cfg: Config, rest: seq<string>, off: nat)
    requires rest != [] && 0 < off < |rest[0]| && !cfg.longOnly && TakesArgument(cfg.options, rest[0][off])
    ensures off + 1 < |rest[0]| ==>
      OptionStep(cfg, rest, off) == Emit(Event(rest[0][off] as int, Some(rest[0][off + 1..]), None, None), 1, 0)
    ensures off + 1 == |rest[0]| && |rest| > 1 && !ArgumentOptional(cfg.options, rest[0][off]) ==>
      OptionStep(cfg, rest, off) == Emit(Event(rest[0][off] as int, Some(rest[1]), None, None), 2, 0)
    ensures off + 1 == |rest[0]| && ArgumentOptional(cfg.options, rest[0][off]) ==>
      OptionStep(cfg, rest, off) == Emit(Event(rest[0][off] as int, None, None, None), 1, 0)
  {
    hide LongOutcome;
  }

  /** A scan with an option's events and words in front. */
  function Prefixed(events: seq<Event>, words: seq<string>, r: Outcome): Outcome {
    r.(events := events + r.events, options := words + r.options)
  }

  lemma PrefixedTwice(event: Event, events: seq<Event>, words: seq<string>, r: Outcome)
    ensures Prefixed([event], [], Prefixed(events, words, r)) == Prefixed([event] + events, words, r)
  {
    assert [event] + (events + r.events) == [event] + events + r.events;
    assert [] + (words + r.options) == words + r.options;
  }

  /** What an option that uses up whole words does to a scan. */
  lemma WholeStep(cfg: Config, words: seq<string>, more: seq<string>, off: nat, event: Event)
    requires words != [] && off < |words[0]|
    requires OptionStep(cfg, words + more, off) == Emit(event, |words|, 0)
    ensures AfterStep(cfg, words + more, OptionStep(cfg, words + more, off), off)
      == Prefixed([event], words, Scan(cfg, more, 0))
  {
    hide OptionStep, Scan;
    assert (words + more)[|words|..] == more && (words + more)[..|words|] == words;
  }

  /** A letter whose argument is optional, and missing, gives the letter. */
  lemma OptionalIsFlag(options: string, c: char)
    requires ArgumentOptional(options, c)
    ensures TakesArgument(options, c) && FlagEvent(options, c) == Event(c as int, None, None, None)
  {
  }

  /** The last letter of a word, with its argument. */
  lemma LastLetter(cfg: Config, word: string, off: nat, letters: string, arg: Option<Argument>, more: seq<string>)
    requires !cfg.longOnly && 0 < off < |word| && |letters| == 1 && GoodLetters(cfg.options, letters, arg)
    requires word[off..] == letters + Joined(arg, "")
    ensures var rest := [word] + Separate(arg) + more;
      AfterStep(cfg, rest, OptionStep(cfg, rest, off), off)
        == Prefixed(LetterEvents(cfg.options, letters, arg), [word] + Separate(arg), Scan(cfg, more, 0))
  {
    hide Flag, FlagEvent, TakesArgument, ArgumentOptional, OptionStep, AfterStep, Scan;
    var words := [word] + Separate(arg);
    var rest := words + more;
    assert word[off] == word[off..][0] == letters[0];
    var event := if arg == None then FlagEvent(cfg.options, letters[0])
      else Event(letters[0] as int, Some(arg.value.text), None, None);
    assert LetterEvents(cfg.options, letters, arg) == [event];
    if arg == None {
      assert letters + "" == letters;
      if ArgumentOptional(cfg.options, letters[0]) {
        OptionalIsFlag(cfg.options, letters[0]);
        ArgumentStep(cfg, rest, off);
      } else {
        FlagStep(cfg, rest, off);
      }
    } else {
      ArgumentStep(cfg, rest, off);
      assert letters[..0] == "";
      if arg.value.joined {
        assert word[off..][1..] == word[off + 1..] == arg.value.text;
      } else {
        assert letters + "" == letters && rest[1] == arg.value.text;
      }
    }
    WholeStep(cfg, words, more, off, event);
  }

  /** A letter without argument that others follow. */
  lemma NextLetter(cfg: Config, rest: seq<string>, off: nat)
    requires rest != [] && 0 < off && off + 1 < |rest[0]| && !cfg.longOnly
    requires Flag(cfg.options, rest[0][off])
    ensures
      var later := AfterStep(cfg, rest, OptionStep(cfg, rest, off + 1), off + 1);
      AfterStep(cfg, rest, OptionStep(cfg, rest, off), off)
        == Prefixed([FlagEvent(cfg.options, rest[0][off])], [], later)
  {
    hide Flag, FlagEvent, OptionStep;
    FlagStep(cfg, rest, off);
    assert rest[0..] == rest && rest[..0] == [];
  }

  lemma GoodTail(options: string, letters: string, arg: Option<Argument>)
    requires GoodLetters(options, letters, arg) && |letters| > 1
    ensures GoodLetters(options, letters[1..], arg)
    ensures Flag(options, letters[0])
  {
    hide Flag, TakesArgument, ArgumentOptional;
    assert letters[1..][..|letters| - 2] == letters[..|letters| - 1][1..];
    assert letters[0] == letters[..|letters| - 1][0];
  }

  /** The letters of a word from off on. */
  lemma {:induction false} LettersScanned(
    cfg: Config, word: string, off: nat, letters: string, arg: Option<Argument>, more: seq<string>)
    requires !cfg.longOnly && 0 < off < |word| && letters != "" && GoodLetters(cfg.options, letters, arg)
    requires word[off..] == letters + Joined(arg, "")
    ensures var rest := [word] + Separate(arg) + more;
      AfterStep(cfg, rest, OptionStep(cfg, rest, off), off)
        == Prefixed(LetterEvents(cfg.options, letters, arg), [word] + Separate(arg), Scan(cfg, more, 0))
    decreases letters
  {
    hide Flag, FlagEvent, OptionStep, AfterStep, Scan, GoodLetters, Prefixed;
    if |letters| == 1 {
      LastLetter(cfg, word, off, letters, arg, more);
    } else {
      GoodTail(cfg.options, letters, arg);
      assert word[off..][1..] == word[off + 1..] == letters[1..] + Joined(arg, "");
      assert word[off] == letters[0];
      LettersScanned(cfg, word, off + 1, letters[1..], arg, more);
      NextLetter(cfg, [word] + Separate(arg) + more, off);
      PrefixedTwice(FlagEvent(cfg.options, letters[0]), LetterEvents(cfg.options, letters[1..], arg),
        [word] + Separate(arg), Scan(cfg, more, 0));
    }
  }

  // ----- long options

  /** The word names entry i, and the argument can be written behind it. */
  ghost predicate GoodLong(table: seq<LongOption>, i: nat, word: string, arg: Option<Argument>, shortToo: bool) {
    && '=' !in word && Names(table, word, shortToo, i)
    && (table[i].hasArg.NoArgument? ==> arg.Some? ==> arg.value.joined)
    && (table[i].hasArg.RequiredArgument? ==> arg.Some?)
    && (table[i].hasArg.OptionalArgument? ==> arg.Some? ==> arg.value.joined)
  }

  lemma NameEnds(name: string, rest: string)
    requires '=' !in name
    ensures StrChr(name, '=') == None && StrChr(name + "=" + rest, '=') == Some(|name|)
  {
    var s := name + "=" + rest;
    assert s[|name|] == '=' && s[..|name|] == name;
    StrChrIs(s, '=', |name|);
  }

  lemma StrChrIs(s: string, c: char, n: nat)
    requires n < |s| && s[n] == c && c !in s[..n]
    ensures StrChr(s, c) == Some(n)
  {
    assert s[n] in s;
  }

  /** The code for a missing or unwanted argument. */
  function LackCode(options: string): int {
    if ":" <= options then 58 else 63
  }

  /** What a long option gives; one that takes no argument and has one is an error. */
  function LongEvent(options: string, o: LongOption, i: nat, arg: Option<Argument>): Event {
    var value := if o.hasFlag then 0 else o.val;
    if o.hasArg.NoArgument? && arg.Some? then Event(LackCode(options), None, None, Some(value))
    else Event(value, if arg.Some? then Some(arg.value.text) else None, Some(i), None)
  }

  lemma LongFound(
    options: string, table: seq<LongOption>, i: nat, word: string, arg: Option<Argument>, more: seq<string>,
    shortToo: bool)
    requires i < |table| && GoodLong(table, i, word, arg, shortToo)
    ensures LongOutcome(options, table, word + Joined(arg, "="), Separate(arg) + more, shortToo)
      == Long(LongEvent(options, table[i], i, arg), |Separate(arg)|)
  {
    hide Resolve, StrChr, Names;
    NamedExactly(table, word, shortToo, i);
    ErrorCodes(options);
    var next := Separate(arg) + more;
    if arg.Some? && arg.value.joined {
      var text := word + "=" + arg.value.text;
      NameEnds(word, arg.value.text);
      assert word + ("=" + arg.value.text) == text;
      assert text[..|word|] == word && text[|word| + 1..] == arg.value.text;
    } else {
      NameEnds(word, "");
      assert word + "" == word;
    }
  }

  /** A word with two dashes is read as a long option. */
  lemma LongStep(cfg: Config, text: string, next: seq<string>, event: Event, extra: nat)
    requires cfg.table.Some? && extra <= |next|
    requires LongOutcome(cfg.options, cfg.table.value, text, next, false) == Long(event, extra)
    ensures OptionStep(cfg, ["--" + text] + next, 1) == Emit(event, 1 + extra, 0)
  {
    hide LongOutcome, ShortStep;
    var rest := ["--" + text] + next;
    assert rest[0][2..] == text && rest[1..] == next;
  }

  lemma LongScanned(cfg: Config, i: nat, word: string, arg: Option<Argument>, more: seq<string>)
    requires cfg.table.Some? && i < |cfg.table.value| && GoodLong(cfg.table.value, i, word, arg, false)
    ensures var words := ["--" + (word + Joined(arg, "="))] + Separate(arg);
      AfterStep(cfg, words + more, OptionStep(cfg, words + more, 1), 1)
        == Prefixed([LongEvent(cfg.options, cfg.table.value[i], i, arg)], words, Scan(cfg, more, 0))
  {
    hide GoodLong, LongOutcome, OptionStep, AfterStep, Scan, LongEvent;
    var o := cfg.table.value[i];
    var text, next := word + Joined(arg, "="), Separate(arg) + more;
    var words := ["--" + text] + Separate(arg);
    LongFound(cfg.options, cfg.table.value, i, word, arg, more, false);
    LongStep(cfg, text, next, LongEvent(cfg.options, o, i, arg), |Separate(arg)|);
    assert ["--" + text] + next == words + more;
    WholeStep(cfg, words, more, 1, LongEvent(cfg.options, o, i, arg));
  }

  /** A word that names no entry. */
  lemma NoNameFound(
    options: string, table: seq<LongOption>, word: string, value: Option<string>, next: seq<string>, shortToo: bool)
    requires '=' !in word && forall i: nat :: !Names(table, word, shortToo, i)
    ensures LongOutcome(options, table, Valued(word, value), next, shortToo) ==
      if shortToo && forall k :: 0 <= k < |table| ==> !Candidate(table, word, shortToo, k) then NotLong
      else Long(Event(63, None, None, Some(0)), 0)
  {
    hide Resolve, StrChr, Names, Candidate;
    ErrorCodes(options);
    UnknownExactly(table, word, shortToo);
    var m := Resolve(table, word, shortToo, 0, None);
    if m.Found? {
      NamedExactly(table, word, shortToo, m.index);
    }
    NameEnds(word, if value.Some? then value.value else "");
    if value.Some? {
      assert Valued(word, value)[..|word|] == word;
    }
  }

  lemma NoNameScanned(cfg: Config, word: string, value: Option<string>, more: seq<string>)
    requires cfg.table.Some? && '=' !in word && forall i: nat :: !Names(cfg.table.value, word, false, i)
    ensures var words := ["--" + Valued(word, value)];
      AfterStep(cfg, words + more, OptionStep(cfg, words + more, 1), 1)
        == Prefixed([Event(63, None, None, Some(0))], words, Scan(cfg, more, 0))
  {
    hide OptionStep, AfterStep, Scan, LongOutcome, Names, Valued;
    var words := ["--" + Valued(word, value)];
    NoNameFound(cfg.options, cfg.table.value, word, value, more, false);
    LongStep(cfg, Valued(word, value), more, Event(63, None, None, Some(0)), 0);
    WholeStep(cfg, words, more, 1, Event(63, None, None, Some(0)));
  }

  // ----- a last option without its argument

  predicate Lacks(options: string, letters: string) {
    && letters != "" && Flags(options, letters[..|letters| - 1])
    && TakesArgument(options, letters[|letters| - 1]) && !ArgumentOptional(options, letters[|letters| - 1])
  }

  function LackEvents(options: string, letters: string): seq<Event> {
    if letters == "" then []
    else if |letters| == 1 then [Event(LackCode(options), None, None, Some(letters[0] as int))]
    else [FlagEvent(options, letters[0])] + LackEvents(options, letters[1..])
  }

  lemma LackStep(cfg: Config, word: string, off: nat)
    requires 0 < off && off + 1 == |word| && !cfg.longOnly
    requires TakesArgument(cfg.options, word[off]) && !ArgumentOptional(cfg.options, word[off])
    ensures OptionStep(cfg, [word], off)
      == Emit(Event(LackCode(cfg.options), None, None, Some(word[off] as int)), 1, 0)
  {
    hide LongOutcome;
    ErrorCodes(cfg.options);
  }

  lemma LacksTail(options: string, letters: string)
    requires Lacks(options, letters) && |letters| > 1
    ensures Lacks(options, letters[1..]) && Flag(options, letters[0])
  {
    hide Flag, TakesArgument, ArgumentOptional;
    assert letters[1..][..|letters| - 2] == letters[..|letters| - 1][1..];
    assert letters[0] == letters[..|letters| - 1][0];
  }

  lemma {:induction false} LettersLack(cfg: Config, word: string, off: nat, letters: string)
    requires !cfg.longOnly && 0 < off < |word| && word[off..] == letters && Lacks(cfg.options, letters)
    ensures AfterStep(cfg, [word], OptionStep(cfg, [word], off), off)
      == Prefixed(LackEvents(cfg.options, letters), [word], Scan(cfg, [], 0))
    decreases letters
  {
    hide Flag, FlagEvent, TakesArgument, ArgumentOptional, OptionStep, AfterStep, Scan, Prefixed;
    assert word[off] == letters[0] && [word] + [] == [word];
    if |letters| == 1 {
      LackStep(cfg, word, off);
      WholeStep(cfg, [word], [], off, Event(LackCode(cfg.options), None, None, Some(letters[0] as int)));
    } else {
      LacksTail(cfg.options, letters);
      assert word[off + 1..] == letters[1..];
      LettersLack(cfg, word, off + 1, letters[1..]);
      NextLetter(cfg, [word], off);
      var later := LackEvents(cfg.options, letters[1..]);
      PrefixedTwice(FlagEvent(cfg.options, letters[0]), later, [word], Scan(cfg, [], 0));
    }
  }

  /** A word for an entry that needs an argument. */
  ghost predicate NeedsArgument(table: seq<LongOption>, i: nat, word: string) {
    word != "" && '=' !in word && Names(table, word, false, i) && table[i].hasArg.RequiredArgument?
  }

  lemma NameLacks(cfg: Config, i: nat, word: string)
    requires cfg.table.Some? && i < |cfg.table.value| && NeedsArgument(cfg.table.value, i, word)
    ensures var o := cfg.table.value[i];
      AfterStep(cfg, ["--" + word], OptionStep(cfg, ["--" + word], 1), 1)
        == Prefixed([Event(LackCode(cfg.options), None, None, Some(if o.hasFlag then 0 else o.val))],
             ["--" + word], Scan(cfg, [], 0))
  {
    hide OptionStep, AfterStep, Scan, Resolve, StrChr, Names;
    var o := cfg.table.value[i];
    var event := Event(LackCode(cfg.options), None, None, Some(if o.hasFlag then 0 else o.val));
    ErrorCodes(cfg.options);
    NamedExactly(cfg.table.value, word, false, i);
    NameEnds(word, "");
    var none: seq<string> := [];
    assert ["--" + word] + none == ["--" + word];
    LongStep(cfg, word, none, event, 0);
    WholeStep(cfg, ["--" + word], [], 1, event);
  }

  /** A last word whose letter wants an argument that does not come gives an error, and is an
      option word all the same. */
  lemma LackingLetterScanned(cfg: Config, letters: string)
    requires !cfg.longOnly && Lacks(cfg.options, letters) && letters[0] != '-'
    ensures Scan(cfg, ["-" + letters], 0) == Outcome(LackEvents(cfg.options, letters), ["-" + letters], [], [], false)
  {
    hide OptionStep, AfterStep, LackEvents, TakesArgument, ArgumentOptional, Flag;
    assert Scan(cfg, [], 0) == Outcome([], [], [], [], false);
    LettersLack(cfg, "-" + letters, 1, letters);
    assert LackEvents(cfg.options, letters) + [] == LackEvents(cfg.options, letters);
  }

  /** So does a long option at the end that needs an argument. */
  lemma LackingNameScanned(cfg: Config, i: nat, word: string)
    requires cfg.table.Some? && i < |cfg.table.value| && NeedsArgument(cfg.table.value, i, word)
    ensures var o := cfg.table.value[i];
      Scan(cfg, ["--" + word], 0) == Outcome(
        [Event(LackCode(cfg.options), None, None, Some(if o.hasFlag then 0 else o.val))],
        ["--" + word], [], [], false)
  {
    hide OptionStep, AfterStep, Names;
    assert Scan(cfg, [], 0) == Outcome([], [], [], [], false);
    NameLacks(cfg, i, word);
  }

  // ----- whole command lines

  lemma ItemScanned(cfg: Config, item: Item, more: seq<string>)
    requires !cfg.longOnly && Listed(cfg, item) && Good(cfg, item)
    ensures Scan(cfg, WordsOf(cfg, item) + more, 0) == With(cfg, item, Scan(cfg, more, 0))
  {
    hide OptionStep, AfterStep, Flag, FlagEvent, TakesArgument, ArgumentOptional;
    match item
    case Operand(word) =>
      assert ([word] + more)[1..] == more;
    case Letters(letters, arg) =>
      var word := "-" + letters + Joined(arg, "");
      assert word[1..] == letters + Joined(arg, "");
      LettersScanned(cfg, word, 1, letters, arg, more);
      FirstIsNoDash(cfg.options, letters, arg);
    case LongName(i, word, arg) => LongScanned(cfg, i, word, arg, more);
    case NoName(word, value) => NoNameScanned(cfg, word, value, more);
  }

  lemma FirstIsNoDash(options: string, letters: string, arg: Option<Argument>)
    requires GoodLetters(options, letters, arg)
    ensures letters[0] != '-'
  {
    if |letters| > 1 {
      GoodTail(options, letters, arg);
    }
  }

  /** Scanning the words of any items, with anything behind them, gives back exactly their
      options with the arguments, sorts their words into those of options and operands, and
      goes on behind them as if they were not there. */
  lemma {:induction false} ItemsScanned(cfg: Config, items: seq<Item>, more: seq<string>)
    requires !cfg.longOnly
    requires forall k :: 0 <= k < |items| ==> Listed(cfg, items[k]) && Good(cfg, items[k])
    ensures Scan(cfg, AllWords(cfg, items) + more, 0)
      == WithAll(cfg, items, Scan(cfg, more, 0))
  {
    hide Scan, With, WordsOf;
    if items == [] {
      assert [] + more == more;
    } else {
      var rest := AllWords(cfg, items[1..]) + more;
      ItemsScanned(cfg, items[1..], more);
      ItemScanned(cfg, items[0], rest);
      assert AllWords(cfg, items) + more == WordsOf(cfg, items[0]) + rest;
    }
  }

  function AllEvents(cfg: Config, items: seq<Item>): seq<Event>
    requires forall k :: 0 <= k < |items| ==> Listed(cfg, items[k])
  {
    if items == [] then [] else EventsOf(cfg, items[0]) + AllEvents(cfg, items[1..])
  }

  /** The words of the operands among the items, or those of the options. */
  function WordsOfKind(cfg: Config, items: seq<Item>, operands: bool): seq<string>
    requires forall k :: 0 <= k < |items| ==> Listed(cfg, items[k])
  {
    if items == [] then []
    else
      (if Skipped(cfg, items[0]) == operands then WordsOf(cfg, items[0]) else [])
        + WordsOfKind(cfg, items[1..], operands)
  }

  lemma {:induction false} WithAllParts(cfg: Config, items: seq<Item>, r: Outcome)
    requires forall k :: 0 <= k < |items| ==> Listed(cfg, items[k])
    ensures WithAll(cfg, items, r) == Outcome(
      AllEvents(cfg, items) + r.events, WordsOfKind(cfg, items, false) + r.options,
      WordsOfKind(cfg, items, true) + r.operands, r.tail, r.halted)
  {
    if items == [] {
      assert [] + r.events == r.events && [] + r.options == r.options && [] + r.operands == r.operands;
    } else {
      hide EventsOf, WordsOf;
      WithAllParts(cfg, items[1..], r);
      if Skipped(cfg, items[0]) {
        PrependTo(WordsOf(cfg, items[0]), WordsOfKind(cfg, items[1..], true), r.operands);
        NoEvents(cfg, items[0], AllEvents(cfg, items[1..]));
        assert [] + WordsOfKind(cfg, items[1..], false) == WordsOfKind(cfg, items[1..], false);
      } else {
        PrependTo(WordsOf(cfg, items[0]), WordsOfKind(cfg, items[1..], false), r.options);
        PrependTo(EventsOf(cfg, items[0]), AllEvents(cfg, items[1..]), r.events);
        assert [] + WordsOfKind(cfg, items[1..], true) == WordsOfKind(cfg, items[1..], true);
      }
    }
  }

  lemma PrependTo<T>(a: seq<T>, b: seq<T>, c: seq<T>)
    ensures a + (b + c) == a + b + c
  {
  }

  lemma NoEvents(cfg: Config, item: Item, events: seq<Event>)
    requires Listed(cfg, item) && Skipped(cfg, item)
    ensures EventsOf(cfg, item) + events == events
  {
  }

  /** A whole command line, with "--" and anything behind it: what getopt gives and where the
      words go is what the items say. */
  lemma LineScanned(cfg: Config, items: seq<Item>, more: seq<string>)
    requires !cfg.longOnly
    requires forall k :: 0 <= k < |items| ==> Listed(cfg, items[k]) && Good(cfg, items[k])
    ensures Scan(cfg, AllWords(cfg, items) + (["--"] + more), 0) == Outcome(
        AllEvents(cfg, items), WordsOfKind(cfg, items, false) + ["--"], WordsOfKind(cfg, items, true), more, false)
  {
    hide AllWords, WithAll, AllEvents, WordsOfKind, Good, OptionStep;
    ItemsScanned(cfg, items, ["--"] + more);
    var r := Scan(cfg, ["--"] + more, 0);
    assert r == Outcome([], ["--"], [], more, false);
    WithAllParts(cfg, items, r);
    assert AllEvents(cfg, items) + [] == AllEvents(cfg, items);
    assert WordsOfKind(cfg, items, true) + [] == WordsOfKind(cfg, items, true);
  }

  // ----- other configurations

  /** Without permutation the scan ends at the first operand. */
  lemma StopsAtOperand(cfg: Config, word: string, more: seq<string>)
    requires !cfg.permute && !cfg.allArgs && (!("-" <= word) || (word == "-" && '-' !in cfg.options))
    ensures Scan(cfg, [word] + more, 0) == Outcome([], [], [], [word] + more, false)
  {
  }

  /** Without long options any word with two dashes ends the options. */
  lemma DashesEnd(cfg: Config, text: string, more: seq<string>)
    requires text == "" || cfg.table.None?
    ensures Scan(cfg, ["--" + text] + more, 0) == Outcome([], ["--" + text], [], more, false)
  {
    hide OptionStep;
    assert ("--" + text)[0] == '-' && ("--" + text)[1] == '-';
    assert (["--" + text] + more)[1..] == more;
  }

  /** A lone dash can be an option letter, with or without an argument in the next word. */
  lemma DashOption(cfg: Config, text: string, more: seq<string>)
    requires RuleOf(cfg.options, '-').Some?
    ensures !(":" <= RuleOf(cfg.options, '-').value) || "::" <= RuleOf(cfg.options, '-').value ==>
      Scan(cfg, ["-"] + more, 0) == Prefixed([Event(45, None, None, None)], ["-"], Scan(cfg, more, 0))
    ensures ":" <= RuleOf(cfg.options, '-').value && !("::" <= RuleOf(cfg.options, '-').value) ==>
      && Scan(cfg, ["-", text] + more, 0)
        == Prefixed([Event(45, Some(text), None, None)], ["-", text], Scan(cfg, more, 0))
      && Scan(cfg, ["-"], 0) == Outcome([Event(LackCode(cfg.options), None, None, Some(45))], ["-"], [], [], false)
  {
    hide AfterStep, LongOutcome;
    ErrorCodes(cfg.options);
    var none: seq<string> := [];
    assert Scan(cfg, none, 0) == Outcome([], [], [], [], false);
    assert ["-"] + none == ["-"];
    DashStep(cfg, ["-"] + more);
    DashStep(cfg, ["-", text] + more);
    DashStep(cfg, ["-"]);
    hide OptionStep;
    if ":" <= RuleOf(cfg.options, '-').value && !("::" <= RuleOf(cfg.options, '-').value) {
      WholeStep(cfg, ["-", text], more, 0, Event(45, Some(text), None, None));
      WholeStep(cfg, ["-"], none, 0, Event(LackCode(cfg.options), None, None, Some(45)));
    } else {
      WholeStep(cfg, ["-"], more, 0, Event(45, None, None, None));
    }
  }

  lemma DashStep(cfg: Config, rest: seq<string>)
    requires rest != [] && rest[0] == "-" && RuleOf(cfg.options, '-').Some?
    ensures var rule := RuleOf(cfg.options, '-').value;
      OptionStep(cfg, rest, 0) ==
        if !(":" <= rule) || "::" <= rule then Emit(Event(45, None, None, None), 1, 0)
        else if |rest| == 1 then Emit(Event(LackCode(cfg.options), None, None, Some(45)), 1, 0)
        else Emit(Event(45, Some(rest[1]), None, None), 2, 0)
  {
    hide LongOutcome;
    ErrorCodes(cfg.options);
  }

  /** Without long options a dash behind letters is a letter: an option, or the end of the scan
      where the letters stand. */
  lemma DashStops(cfg: Config, word: string, off: nat, more: seq<string>)
    requires cfg.table.None? && '-' !in cfg.options && off < |word| && word[off] == '-'
    ensures AfterStep(cfg, [word] + more, OptionStep(cfg, [word] + more, off), off)
      == Outcome([], [], [], [word] + more, true)
  {
  }

  /** With long options, a dash behind letters starts a long option. */
  lemma DashInside(cfg: Config, letters: string, text: string, next: seq<string>)
    requires cfg.table.Some? && letters != ""
    ensures OptionStep(cfg, [letters + "-" + text] + next, |letters|) == OptionStep(cfg, ["--" + text] + next, 1)
  {
    hide LongOutcome, ShortStep;
    var r, r' := [letters + "-" + text] + next, ["--" + text] + next;
    assert r[0][|letters|] == '-' == r'[0][1];
    assert r[0][|letters| + 1..] == text == r'[0][2..] && r[1..] == next == r'[1..];
  }

  // ----- the letter W

  /** -W followed by a text, in its word or the next one, is that text as a long option. */
  lemma LetterW(cfg: Config, text: string, next: seq<string>)
    requires cfg.table.Some? && !cfg.longOnly && text != ""
    requires RuleOf(cfg.options, 'W').Some? && ";" <= RuleOf(cfg.options, 'W').value
    ensures var r := Scan(cfg, ["--" + text] + next, 0);
      && r.options != [] && r.options[0] == "--" + text
      && Scan(cfg, ["-W" + text] + next, 0) == r.(options := ["-W" + text] + r.options[1..])
      && Scan(cfg, ["-W", text] + next, 0) == r.(options := ["-W", text] + r.options[1..])
    ensures Scan(cfg, ["-W"], 0) == Outcome([Event(LackCode(cfg.options), None, None, Some(87))], ["-W"], [], [], false)
  {
    hide OptionStep, AfterStep;
    ErrorCodes(cfg.options);
    StepsOfW(cfg, text, next);
    var res := LongOutcome(cfg.options, cfg.table.value, text, next, false);
    LongStep(cfg, text, next, res.event, res.extra);
    StepTaken(cfg, ["--" + text], next, res.event, res.extra);
    StepTaken(cfg, ["-W" + text], next, res.event, res.extra);
    StepTaken(cfg, ["-W", text], next, res.event, res.extra);
    var none: seq<string> := [];
    assert Scan(cfg, none, 0) == Outcome([], [], [], [], false) && ["-W"] + none == ["-W"];
    StepTaken(cfg, ["-W"], none, Event(LackCode(cfg.options), None, None, Some(87)), 0);
    hide Scan;
    var s := Scan(cfg, next[res.extra..], 0);
    OtherWords("--" + text, ["-W" + text], next[..res.extra], res.event, s);
    OtherWords("--" + text, ["-W", text], next[..res.extra], res.event, s);
  }

  /** The same event for other words. */
  lemma OtherWords(word: string, words: seq<string>, extra: seq<string>, event: Event, s: Outcome)
    ensures var r := Prefixed([event], [word] + extra, s);
      && r.options != [] && r.options[0] == word
      && Prefixed([event], words + extra, s) == r.(options := words + r.options[1..])
  {
    assert ([word] + extra + s.options)[1..] == extra + s.options;
    assert words + (extra + s.options) == words + extra + s.options;
  }

  lemma StepsOfW(cfg: Config, text: string, next: seq<string>)
    requires cfg.table.Some? && !cfg.longOnly && text != ""
    requires RuleOf(cfg.options, 'W').Some? && ";" <= RuleOf(cfg.options, 'W').value
    ensures var res := LongOutcome(cfg.options, cfg.table.value, text, next, false);
      && res.Long?
      && OptionStep(cfg, ["-W" + text] + next, 1) == Emit(res.event, 1 + res.extra, 0)
      && OptionStep(cfg, ["-W", text] + next, 1) == Emit(res.event, 2 + res.extra, 0)
    ensures OptionStep(cfg, ["-W"], 1) == Emit(Event(LackCode(cfg.options), None, None, Some(87)), 1, 0)
  {
    hide LongOutcome;
    ErrorCodes(cfg.options);
    LongResultIs(cfg, text, next);
    assert (["-W" + text] + next)[0][2..] == text && (["-W" + text] + next)[1..] == next;
    assert (["-W", text] + next)[1..] == [text] + next && ([text] + next)[1..] == next;
  }

  /** So is a W behind other letters. */
  lemma LetterWInside(cfg: Config, letters: string, text: string, next: seq<string>)
    requires cfg.table.Some? && !cfg.longOnly && letters != "" && text != ""
    requires RuleOf(cfg.options, 'W').Some? && ";" <= RuleOf(cfg.options, 'W').value
    ensures OptionStep(cfg, [letters + "W" + text] + next, |letters|) == OptionStep(cfg, ["--" + text] + next, 1)
  {
    hide LongOutcome;
    var rest := [letters + "W" + text] + next;
    assert rest[0][|letters|] == 'W' && rest[0][|letters| + 1..] == text && rest[1..] == next;
    LongResultIs(cfg, text, next);
    var res := LongOutcome(cfg.options, cfg.table.value, text, next, false);
    LongStep(cfg, text, next, res.event, res.extra);
  }

  lemma LongResultIs(cfg: Config, text: string, next: seq<string>)
    requires cfg.table.Some?
    ensures var res := LongOutcome(cfg.options, cfg.table.value, text, next, false); res.Long? && res.extra <= |next|
  {
  }

  /** The scan at an option word. */
  lemma ScanAtOption(cfg: Config, rest: seq<string>)
    requires rest != [] && "-" <= rest[0] && |rest[0]| > 1
    requires rest[0] != "--" && !(cfg.table.None? && "--" <= rest[0])
    ensures Scan(cfg, rest, 0) == AfterStep(cfg, rest, OptionStep(cfg, rest, 1), 1)
  {
    hide OptionStep, AfterStep;
  }

  /** An option that uses up these words and the first extra ones behind them. */
  lemma StepTaken(cfg: Config, words: seq<string>, next: seq<string>, event: Event, extra: nat)
    requires words != [] && "-" <= words[0] && |words[0]| > 1 && extra <= |next|
    requires words[0] != "--" && !(cfg.table.None? && "--" <= words[0])
    requires OptionStep(cfg, words + next, 1) == Emit(event, |words| + extra, 0)
    ensures Scan(cfg, words + next, 0) == Prefixed([event], words + next[..extra], Scan(cfg, next[extra..], 0))
  {
    hide OptionStep, Scan, AfterStep;
    ScanAtOption(cfg, words + next);
    assert words + next[..extra] + next[extra..] == words + next;
    WholeStep(cfg, words + next[..extra], next[extra..], 1, event);
  }

  // ----- one dash for long options

  /** Read with one dash, where that is allowed, a word behind any letters that names an entry
      gives that entry. A word that could be a short option names none by one letter. */
  lemma OneDashScanned(cfg: Config, before: string, i: nat, word: string, arg: Option<Argument>, more: seq<string>)
    requires cfg.table.Some? && cfg.longOnly && before != "" && word != "" && word[0] != '-'
    requires i < |cfg.table.value|
    requires GoodLong(cfg.table.value, i, word, arg, word[0] != ':' && word[0] in cfg.options)
    ensures OptionStep(cfg, [before + (word + Joined(arg, "="))] + Separate(arg) + more, |before|)
      == Emit(LongEvent(cfg.options, cfg.table.value[i], i, arg), 1 + |Separate(arg)|, 0)
  {
    hide LongOutcome, ShortStep, GoodLong, LongEvent;
    var text := word + Joined(arg, "=");
    LongFound(cfg.options, cfg.table.value, i, word, arg, more, word[0] != ':' && word[0] in cfg.options);
    assert [before + text] + Separate(arg) + more == [before + text] + (Separate(arg) + more);
    OneDashStep(cfg, before, text, Separate(arg) + more);
  }

  /** One that names none is an error, unless it begins no name and could be a short option. */
  lemma OneDashNoName(
    cfg: Config, before: string, word: string, value: Option<string>, next: seq<string>, shortToo: bool)
    requires cfg.table.Some? && cfg.longOnly && before != "" && word != "" && word[0] != '-' && '=' !in word
    requires shortToo <==> word[0] != ':' && word[0] in cfg.options
    requires forall i: nat :: !Names(cfg.table.value, word, shortToo, i)
    ensures var rest := [before + Valued(word, value)] + next;
      OptionStep(cfg, rest, |before|) ==
        if shortToo && forall k :: 0 <= k < |cfg.table.value| ==> !Candidate(cfg.table.value, word, shortToo, k)
        then OptionStep(cfg.(longOnly := false), rest, |before|)
        else Emit(Event(63, None, None, Some(0)), 1, 0)
  {
    hide LongOutcome, ShortStep, Names, Valued, Candidate;
    var text := Valued(word, value);
    ValuedFirst(word, value);
    NoNameFound(cfg.options, cfg.table.value, word, value, next, shortToo);
    OneDashStep(cfg, before, text, next);
    SameShortStep(cfg, [before + text] + next, |before|);
  }

  lemma ValuedFirst(word: string, value: Option<string>)
    requires word != ""
    ensures Valued(word, value) != "" && Valued(word, value)[0] == word[0]
  {
  }

  lemma OneDashStep(cfg: Config, before: string, text: string, next: seq<string>)
    requires cfg.table.Some? && cfg.longOnly && before != "" && text != "" && text[0] != '-'
    ensures var rest := [before + text] + next;
      var res := LongOutcome(cfg.options, cfg.table.value, text, next, text[0] != ':' && text[0] in cfg.options);
      OptionStep(cfg, rest, |before|) ==
        if res.Long? then Emit(res.event, 1 + res.extra, 0) else ShortStep(cfg, rest, |before|)
  {
    hide LongOutcome, ShortStep;
    var rest := [before + text] + next;
    assert rest[0][|before|] == text[0] && rest[0][|before|..] == text && rest[1..] == next;
  }

  lemma SameShortStep(cfg: Config, rest: seq<string>, off: nat)
    requires rest != [] && 0 < off < |rest[0]| && rest[0][off] != '-'
    ensures OptionStep(cfg.(longOnly := false), rest, off) == ShortStep(cfg, rest, off)
  {
    hide LongOutcome;
  }
}
