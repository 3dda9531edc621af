/** What getopt_internal makes of a vector of words, as a scan that leaves the words where
    they are. */
module Getopt {
  import opened Wrappers
  import opened CStrings
  import opened LongOptions

  /** The arguments every call repeats. The option letters come without a leading '+' or
      '-'; those two prefixes clear permute or set allArgs. */
  datatype Config = Config(
    options: string, table: Option<seq<LongOption>>, permute: bool, allArgs: bool, longOnly: bool)
  {
    /** No long option returns -1, the value that ends the caller's loop. */
    predicate Valid() {
      table.Some? ==> forall o :: o in table.value ==> o.hasFlag || o.val != -1
    }
  }

  /** What processing at an option word does: emit an event after using up some words,
      leaving the letters from off on if used is 0; or return -1 at a lone '-'. */
  datatype Step = Emit(event: Event, used: nat, off: nat) | LoneDash

  /** The outcome of a whole scan of words that stay in place: what is returned, the words
      consumed as options or option arguments, the operands skipped over and the words
      the scan does not reach. */
  datatype Outcome = Outcome(
    events: seq<Event>, options: seq<string>, operands: seq<string>, tail: seq<string>, halted: bool)

  predicate IsOperand(cfg: Config, word: string) {
    word == "" || word[0] != '-' || (word == "-" && '-' !in cfg.options)
  }

  /** "--", or any word with two dashes when there are no long options. */
  predicate EndsOptions(cfg: Config, word: string) {
    |word| >= 2 && word[0] == '-' && word[1] == '-' && (|word| == 2 || cfg.table.None?)
  }

  /** The short option at letter off of the first word. */
  function ShortStep(cfg: Config, rest: seq<string>, off: nat): (r: Step)
    requires rest != [] && off < |rest[0]|
    ensures r.Emit? ==> r.used <= |rest| && (r.used == 0 ==> off < r.off < |rest[0]|) && (r.used > 0 ==> r.off == 0)
    ensures r.LoneDash? ==> rest[0][off] == '-' && '-' !in cfg.options
  {
    var word, next, c := rest[0], rest[1..], rest[0][off];
    var last := off + 1 == |word|;
    var at := StrChr(cfg.options, c);
    if c == ':' || at.None? then
      if c == '-' then LoneDash
      else Emit(Event(BADCH, None, None, Some(c as int)), if last then 1 else 0, if last then 0 else off + 1)
    else
      var after := cfg.options[at.value + 1..];
      if cfg.table.Some? && c == 'W' && after != "" && after[0] == ';' then
        if last && next == [] then
          Emit(Event(BadArg(cfg.options), None, None, Some(c as int)), 1, 0)
        else
          var text := if last then next[0] else word[off + 1..];
          var res := LongOutcome(cfg.options, cfg.table.value, text, if last then next[1..] else next, false);
          Emit(res.event, (if last then 2 else 1) + res.extra, 0)
      else if after == "" || after[0] != ':' then
        Emit(Event(c as int, None, None, None), if last then 1 else 0, if last then 0 else off + 1)
      else if !last then
        Emit(Event(c as int, Some(word[off + 1..]), None, None), 1, 0)
      else if |after| > 1 && after[1] == ':' then
        Emit(Event(c as int, None, None, None), 1, 0)
      else if next == [] then
        Emit(Event(BadArg(cfg.options), None, None, Some(c as int)), 1, 0)
      else
        Emit(Event(c as int, Some(next[0]), None, None), 2, 0)
  }

  /** Could the first word, read from letter off on, be a long option? */
  predicate TriesLong(cfg: Config, rest: seq<string>, off: nat)
    requires rest != [] && off < |rest[0]|
  {
    cfg.table.Some? && off != 0 && (rest[0][off] == '-' || cfg.longOnly)
  }

  /** The attempt to read the first word from letter off on as a long option. */
  function LongAttempt(cfg: Config, rest: seq<string>, off: nat): (r: LongResult)
    requires rest != [] && off < |rest[0]| && TriesLong(cfg, rest, off)
    ensures r.Long? ==> r.extra < |rest|
    ensures r.NotLong? ==> rest[0][off] != '-' && rest[0][off] != ':' && rest[0][off] in cfg.options
  {
    var c := rest[0][off];
    var shortToo := c != '-' && c != ':' && c in cfg.options;
    LongOutcome(cfg.options, cfg.table.value, rest[0][if c == '-' then off + 1 else off..], rest[1..], shortToo)
  }

  /** The option at letter off of the first word. */
  function OptionStep(cfg: Config, rest: seq<string>, off: nat): (r: Step)
    requires rest != [] && off < |rest[0]|
    ensures r.Emit? ==> r.used <= |rest| && (r.used == 0 ==> off < r.off < |rest[0]|) && (r.used > 0 ==> r.off == 0)
    ensures r.LoneDash? ==> rest[0][off] == '-' && '-' !in cfg.options && !TriesLong(cfg, rest, off)
  {
    if TriesLong(cfg, rest, off) && LongAttempt(cfg, rest, off).Long? then
      var res := LongAttempt(cfg, rest, off);
      Emit(res.event, 1 + res.extra, 0)
    else
      ShortStep(cfg, rest, off)
  }

  /** The letter at which the scan of a fresh option word starts. */
  function FirstLetter(word: string): nat {
    if |word| > 1 then 1 else 0
  }

  /** The scan from the first word on, at letter off of it if off is not 0. */
  function Scan(cfg: Config, rest: seq<string>, off: nat): (r: Outcome)
    requires off > 0 ==> rest != [] && off < |rest[0]|
    decreases |rest|, (if rest == [] then 0 else |rest[0]| - off), 0
  {
    if off > 0 then AfterStep(cfg, rest, OptionStep(cfg, rest, off), off)
    else if rest == [] then Outcome([], [], [], [], false)
    else if IsOperand(cfg, rest[0]) then
      if cfg.allArgs then
        var r := Scan(cfg, rest[1..], 0);
        r.(events := [Event(1, Some(rest[0]), None, None)] + r.events, options := [rest[0]] + r.options)
      else if !cfg.permute then Outcome([], [], [], rest, false)
      else
        var r := Scan(cfg, rest[1..], 0);
        r.(operands := [rest[0]] + r.operands)
    else if EndsOptions(cfg, rest[0]) then Outcome([], [rest[0]], [], rest[1..], false)
    else AfterStep(cfg, rest, OptionStep(cfg, rest, FirstLetter(rest[0])), FirstLetter(rest[0]))
  }

  /** The scan once the option at letter off has been processed. */
  function AfterStep(cfg: Config, rest: seq<string>, step: Step, ghost off: nat): (r: Outcome)
    requires rest != [] && off < |rest[0]|
    requires step.Emit? ==>
      && step.used <= |rest|
      && (step.used == 0 ==> off < step.off < |rest[0]|) && (step.used > 0 ==> step.off == 0)
    decreases |rest| - (if step.Emit? then step.used else 0),
      (if step.Emit? && step.used == 0 then |rest[0]| - step.off
       else if step.Emit? && step.used < |rest| then |rest[step.used]| else 0), 1
  {
    match step
    case LoneDash => Outcome([], [], [], rest, true)
    case Emit(event, used, off') =>
      var r := Scan(cfg, rest[used..], off');
      r.(events := [event] + r.events, options := rest[..used] + r.options)
  }

  /** s is an interleaving of a and b that keeps the order within each. */
  ghost predicate Merge(s: seq<string>, a: seq<string>, b: seq<string>) {
    if s == [] then a == [] && b == []
    else
      || (a != [] && a[0] == s[0] && Merge(s[1..], a[1..], b))
      || (b != [] && b[0] == s[0] && Merge(s[1..], a, b[1..]))
  }

  lemma {:induction false} MergePrefix(p: seq<string>, s: seq<string>, a: seq<string>, b: seq<string>)
    requires Merge(s, a, b)
    ensures Merge(p + s, p + a, b)
  {
    if p == [] {
      assert p + s == s && p + a == a;
    } else {
      MergePrefix(p[1..], s, a, b);
      assert (p + s)[1..] == p[1..] + s && (p + a)[1..] == p[1..] + a;
    }
  }

  /** A scan splits the words it covers into options and operands, in order; the words it
      does not reach follow. Without permutation nothing is skipped. */
  lemma {:induction false} ScanSplits(cfg: Config, rest: seq<string>, off: nat) returns (k: nat)
    requires off > 0 ==> rest != [] && off < |rest[0]|
    ensures k <= |rest|
    ensures var r := Scan(cfg, rest, off);
      && r.tail == rest[k..]
      && Merge(rest[..k], r.options, r.operands)
      && (forall w :: w in r.operands ==> IsOperand(cfg, w))
      && (!cfg.permute || cfg.allArgs ==> r.operands == [])
    decreases |rest|, if rest == [] then 0 else |rest[0]| - off
  {
    if off > 0 {
      k := StepSplits(cfg, rest, off);
    } else if rest == [] {
      k := 0;
    } else if IsOperand(cfg, rest[0]) {
      if !cfg.allArgs && !cfg.permute {
        k := 0;
      } else {
        k := ScanSplits(cfg, rest[1..], 0);
        assert rest[1..][..k] == rest[..k + 1][1..];
        k := k + 1;
      }
    } else if EndsOptions(cfg, rest[0]) {
      k := 1;
      assert rest[..1] == [rest[0]];
      assert Merge([], [], []);
    } else {
      k := StepSplits(cfg, rest, FirstLetter(rest[0]));
    }
  }

  lemma {:induction false} StepSplits(cfg: Config, rest: seq<string>, off: nat) returns (k: nat)
    requires rest != [] && off < |rest[0]|
    ensures k <= |rest|
    ensures var r := AfterStep(cfg, rest, OptionStep(cfg, rest, off), off);
      && r.tail == rest[k..]
      && Merge(rest[..k], r.options, r.operands)
      && (forall w :: w in r.operands ==> IsOperand(cfg, w))
      && (!cfg.permute || cfg.allArgs ==> r.operands == [])
    decreases |rest|, |rest[0]| - off, 0
  {
    hide LongAttempt, ShortStep, IsOperand, EndsOptions;
    match OptionStep(cfg, rest, off)
    case LoneDash => k := 0;
    case Emit(event, used, off') =>
      k := ScanSplits(cfg, rest[used..], off');
      WordsUsed(rest, used, k, Scan(cfg, rest[used..], off'));
      k := used + k;
  }

  /** A scan of what is left, seen with the words used before it. */
  lemma WordsUsed(rest: seq<string>, used: nat, k: nat, r: Outcome)
    requires used <= |rest| && k <= |rest[used..]|
    requires r.tail == rest[used..][k..] && Merge(rest[used..][..k], r.options, r.operands)
    ensures r.tail == rest[used + k..] && Merge(rest[..used + k], rest[..used] + r.options, r.operands)
  {
    assert rest[used..][k..] == rest[used + k..];
    MergePrefix(rest[..used], rest[used..][..k], r.options, r.operands);
    assert rest[..used] + rest[used..][..k] == rest[..used + k];
  }

  /** With a table of long options a scan never stops at a lone dash. */
  lemma {:induction false} NeverHalts(cfg: Config, rest: seq<string>, off: nat)
    requires cfg.table.Some?
    requires off > 0 ==> rest != [] && off < |rest[0]|
    ensures !Scan(cfg, rest, off).halted
    decreases |rest|, if rest == [] then 0 else |rest[0]| - off
  {
    if off == 0 && (rest == [] || EndsOptions(cfg, rest[0])) {
    } else if off == 0 && IsOperand(cfg, rest[0]) {
      NeverHalts(cfg, rest[1..], 0);
    } else {
      var first := if off > 0 then off else FirstLetter(rest[0]);
      var step := OptionStep(cfg, rest, first);
      if step.Emit? {
        NeverHalts(cfg, rest[step.used..], step.off);
      }
    }
  }
}
