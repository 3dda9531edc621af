/** getopt_internal itself: a scanner that keeps its place between calls and exchanges
    blocks of the argument array as it goes. */
module GetoptScanner {
  import opened Wrappers
  import opened CStrings
  import opened LongOptions
  import opened Getopt
  import Rotation

  /** A pointer into a word; EMSG is the pointer to an empty string. */
  datatype Place = Place(str: string, off: nat)
  {
    predicate AtEnd() {
      off >= |str|
    }
  }

  const EMSG := Place("", 0)
  const INORDER := 1

  /** The block of operands trades places with the options behind it. */
  lemma MoveOperands(head: seq<string>, start: int, opts: seq<string>, operands: seq<string>, rest: seq<string>)
    requires |head| == 1 && 1 <= start <= 1 + |opts|
    ensures var s := head + Arrange(start, opts, operands) + rest;
      && |s| == 1 + |opts| + |operands| + |rest|
      && Rotation.Exchanged(s, start, start + |operands|, 1 + |opts| + |operands|) == head + opts + operands + rest
  {
    var before, behind := head + opts[..start - 1], opts[start - 1..];
    var s := head + Arrange(start, opts, operands) + rest;
    Regrouped(head, opts[..start - 1], operands, behind, rest);
    hide Arrange;
    ExchangeBlocks(s, before, operands, behind, rest);
    assert before + behind == head + opts;
  }

  lemma Regrouped<T>(a: seq<T>, b: seq<T>, c: seq<T>, d: seq<T>, e: seq<T>)
    ensures a + (b + c + d) + e == a + b + c + d + e
  {
  }

  lemma ExchangeBlocks(s: seq<string>, pre: seq<string>, b: seq<string>, c: seq<string>, post: seq<string>)
    requires s == pre + b + c + post
    ensures Rotation.Exchanged(s, |pre|, |pre| + |b|, |pre| + |b| + |c|) == pre + c + b + post
  {
    assert s[..|pre|] == pre && s[|pre| + |b| + |c|..] == post;
    assert s[|pre|..|pre| + |b|] == b && s[|pre| + |b|..|pre| + |b| + |c|] == c;
  }

  /** The codes of options differ from -1, the code for the end of the options. */
  lemma CodesAreNotEnd(cfg: Config, rest: seq<string>, off: nat)
    requires cfg.Valid() && rest != [] && off < |rest[0]|
    ensures var step := OptionStep(cfg, rest, off); step.Emit? ==> step.event.code != -1
  {
    hide ShortStep, LongAttempt, TriesLong;
    ShortCodes(cfg, rest, off);
    if TriesLong(cfg, rest, off) {
      AttemptCodes(cfg, rest, off);
    }
  }

  /** The option at a letter is a long one, if it can be read so, or a short one. */
  lemma StepIs(cfg: Config, rest: seq<string>, off: nat)
    requires rest != [] && off < |rest[0]|
    ensures !TriesLong(cfg, rest, off) ==> OptionStep(cfg, rest, off) == ShortStep(cfg, rest, off)
    ensures TriesLong(cfg, rest, off) ==>
      if LongAttempt(cfg, rest, off).Long? then OptionStep(cfg, rest, off).Emit?
      else OptionStep(cfg, rest, off) == ShortStep(cfg, rest, off)
  {
    hide LongAttempt, ShortStep;
  }

  lemma AttemptCodes(cfg: Config, rest: seq<string>, off: nat)
    requires cfg.Valid() && rest != [] && off < |rest[0]| && TriesLong(cfg, rest, off)
    ensures var r := LongAttempt(cfg, rest, off); r.Long? ==> r.event.code != -1
  {
  }

  lemma AttemptMeans(cfg: Config, rest: seq<string>, off: nat)
    requires rest != [] && off < |rest[0]| && TriesLong(cfg, rest, off)
    ensures var c := rest[0][off];
      var shortToo := c != '-' && c != ':' && StrChr(cfg.options, c).Some?;
      LongAttempt(cfg, rest, off) == LongOutcome(
        cfg.options, cfg.table.value, rest[0][if c == '-' then off + 1 else off..], rest[1..], shortToo)
      && (LongAttempt(cfg, rest, off).NotLong? ==> shortToo)
  {
    hide LongOutcome, FirstAt;
  }

  lemma ShortCodes(cfg: Config, rest: seq<string>, off: nat)
    requires cfg.Valid() && rest != [] && off < |rest[0]|
    ensures var step := ShortStep(cfg, rest, off); step.Emit? ==> step.event.code != -1
  {
  }

  /** The words scanned so far as the array holds them: the operands skipped so far form
      one block, which starts at index start if start is not -1. */
  ghost function Arrange(start: int, opts: seq<string>, operands: seq<string>): seq<string> {
    if 1 <= start <= 1 + |opts| then opts[..start - 1] + operands + opts[start - 1..] else opts
  }

  /** The words looked at, with the operands where they were when the scan stopped. */
  ghost predicate InPlace(s: seq<string>, head: seq<string>, start: int, w: Outcome) {
    && s == head + Arrange(start, w.options, w.operands) + w.tail
    && (w.operands != [] ==> 1 <= start <= 1 + |w.options|)
  }

  lemma TakeWords(head: seq<string>, start: int, opts: seq<string>, operands: seq<string>, rest: seq<string>, n: nat)
    requires n <= |rest| && (start == -1 || 1 <= start <= 1 + |opts|)
    ensures head + Arrange(start, opts, operands) + rest
      == head + Arrange(start, opts + rest[..n], operands) + rest[n..]
  {
  }

  lemma TakeOperand(head: seq<string>, opts: seq<string>, operands: seq<string>, rest: seq<string>)
    requires rest != []
    ensures head + opts + operands + rest
      == head + Arrange(1 + |opts|, opts, operands + [rest[0]]) + rest[1..]
  {
  }

  class Scanner {
    const cfg: Config
    const nargv: array<string>
    var optind: nat
    var place: Place
    var nonoptStart: int
    var nonoptEnd: int
    var optarg: Option<string>
    var optopt: int
    var idx: int

    ghost var head: seq<string>      // the program's name
    ghost var opts: seq<string>      // words consumed so far, in order
    ghost var operands: seq<string>  // operands skipped so far, in order
    ghost var rest: seq<string>      // words from optind on

    /** The words before optind as the array holds them. */
    ghost function Arranged(): seq<string>
      reads this
    {
      Arrange(nonoptStart, opts, operands)
    }

    ghost predicate Valid()
      reads this, nargv
    {
      && cfg.Valid()
      && (|head| == 1 || (head == [] && nargv.Length == 0))
      && nargv[..] == head + Arranged() + rest
      && optind == 1 + |opts| + |operands|
      && (!cfg.permute || cfg.allArgs ==> operands == [])
      && (if operands == [] then nonoptStart == -1 && nonoptEnd == -1
          else if nonoptEnd == -1 then nonoptStart == 1 + |opts|
          else 1 <= nonoptStart <= 1 + |opts| && nonoptEnd == nonoptStart + |operands|)
      && (if place.AtEnd() then nonoptEnd < optind
          else rest != [] && place.str == rest[0] && (operands != [] ==> nonoptEnd != -1))
    }

    /** What the reference scan still has to give. */
    ghost function Remaining(): Outcome
      requires Valid()
      reads this, nargv
    {
      if place.AtEnd() then Scan(cfg, rest, 0)
      else AfterStep(cfg, rest, OptionStep(cfg, rest, place.off), place.off)
    }

    /** The outcome of the whole scan, as far as it is known to this state. */
    ghost function Whole(): Outcome
      requires Valid()
      reads this, nargv
    {
      var r := Remaining();
      r.(options := opts + r.options, operands := operands + r.operands)
    }

    /** The end of a scan with outcome w: options first, then the operands, then the words
        the scan did not reach, and optind at the first operand. */
    ghost predicate Finished(w: Outcome)
      reads this, nargv
    {
      LaidOut(w.options, w.operands, w.tail)
    }

    ghost predicate LaidOut(options: seq<string>, operands: seq<string>, tail: seq<string>)
      reads this, nargv
    {
      nargv[..] == head + options + operands + tail && optind == 1 + |options|
    }

    /** The end of a scan that stops at a lone '-' without long options, where the source returns
        without permuting: the operands skipped are still one block among the options. */
    ghost predicate Stopped(w: Outcome)
      reads this, nargv
    {
      && InPlace(nargv[..], head, nonoptStart, w)
      && optind == 1 + |w.options| + |w.operands|
    }

    /** The letters of the word being scanned that are still to be looked at. */
    ghost function Letters(): nat
      reads this
    {
      if !place.AtEnd() then |place.str| - place.off else if rest == [] then 0 else |rest[0]|
    }

    constructor (cfg: Config, nargv: array<string>)
      requires cfg.Valid()
      ensures Valid() && this.cfg == cfg && this.nargv == nargv && optind == 1
      ensures nargv.Length > 0 ==> head == nargv[..1] && rest == nargv[1..]
      ensures nargv.Length == 0 ==> head == rest == []
      ensures Whole() == Scan(cfg, rest, 0) && place == EMSG
    {
      this.cfg, this.nargv := cfg, nargv;
      optind, place, nonoptStart, nonoptEnd := 1, EMSG, -1, -1;
      optarg, optopt, idx := None, '?' as int, 0;
      head, opts, operands := nargv[..if nargv.Length > 0 then 1 else 0], [], [];
      rest := nargv[if nargv.Length > 0 then 1 else 0..];
    }

    /** The calls of permute_args. */
    method Permute()
      requires operands != [] && 1 <= nonoptStart < nonoptEnd == nonoptStart + |operands|
      requires nonoptEnd < optind == 1 + |opts| + |operands| <= nargv.Length
      requires |head| == 1 && nargv[..] == head + Arranged() + rest
      modifies nargv
      ensures nargv[..] == head + opts + operands + rest
    {
      hide Arrange, Rotation.Exchanged;
      MoveOperands(head, nonoptStart, opts, operands, rest);
      Rotation.PermuteArgs(nonoptStart, nonoptEnd, optind, nargv);
    }

    /** The call returned the first event of w and left the others to be returned. */
    ghost predicate Gave(w: Outcome, optopt0: int, idx0: int, code: int)
      requires Valid()
      reads this, nargv
    {
      && w.events != []
      && code == w.events[0].code != -1
      && optarg == w.events[0].arg
      && optopt == (if w.events[0].bad.Some? then w.events[0].bad.value else optopt0)
      && idx == (if w.events[0].index.Some? then w.events[0].index.value else idx0)
      && Whole() == w.(events := w.events[1..])
    }

    /** Moves the operands skipped so far behind the options, if any, and sets optind to the
        first of them (lines 335-340, 348 and 398-403). */
    method Settle()
      requires Valid() && place.AtEnd() && (operands != [] ==> nonoptEnd != -1)
      modifies this, nargv
      ensures Valid() && head == old(head)
      ensures LaidOut(old(opts), old(operands), old(rest))
    {
      if nonoptEnd != -1 {
        Permute();
        optind := optind - (nonoptEnd - nonoptStart);
      }
      assert nargv[..] == head + opts + operands + rest;
      nonoptStart, nonoptEnd := -1, -1;
      assert nargv[..] == head + opts + (operands + rest);
      operands, rest := [], operands + rest;
    }

    /** The end of the argument vector (lines 333-350). */
    method EndOfVector()
      requires Valid() && place.AtEnd() && rest == []
      modifies this, nargv
      ensures Valid() && head == old(head)
      ensures Finished(old(Whole())) && old(Whole()).events == [] && !old(Whole()).halted
    {
      ghost var w := Whole();
      assert w.options == opts && w.operands == operands && w.tail == [] && w.events == [] && !w.halted;
      place := EMSG;
      if nonoptEnd == -1 && nonoptStart != -1 {
        optind := nonoptStart;
        nonoptStart := -1;
        assert nargv[..] == head + opts + operands + rest;
        operands, rest := [], operands;
      } else {
        Settle();
      }
    }

    /** Brings the block of skipped operands up to optind, where the next one stands
        (lines 370-378). */
    method OpenOperands()
      requires Valid() && place.AtEnd() && rest != []
      modifies this`nonoptStart, this`nonoptEnd, nargv
      ensures nonoptStart == 1 + |opts| && nonoptEnd == -1
      ensures nargv[..] == head + opts + operands + rest
    {
      if nonoptStart == -1 {
        nonoptStart := optind;
      } else if nonoptEnd != -1 {
        Permute();
        nonoptStart := optind - (nonoptEnd - nonoptStart);
        nonoptEnd := -1;
      }
    }

    /** A word that is an operand is passed over (lines 369-381). */
    method SkipOperand()
      requires Valid() && place.AtEnd() && rest != [] && cfg.permute && !cfg.allArgs
      modifies this, nargv
      ensures Valid() && head == old(head) && place == old(place)
      ensures rest == old(rest[1..]) && opts == old(opts) && operands == old(operands) + [old(rest[0])]
      ensures optarg == old(optarg) && optopt == old(optopt) && idx == old(idx)
    {
      OpenOperands();
      optind := optind + 1;
      TakeOperand(head, opts, operands, rest);
      operands, rest := operands + [rest[0]], rest[1..];
    }

    /** The word being looked at is an option: what was skipped before it is now a block
        between options (line 384). */
    method CloseOperands()
      requires Valid() && rest != []
      modifies this`nonoptEnd
      ensures nonoptEnd == (if operands != [] && old(nonoptEnd) == -1 then optind else old(nonoptEnd))
      ensures Arranged() == old(Arranged())
    {
      if nonoptStart != -1 && nonoptEnd == -1 {
        nonoptEnd := optind;
      }
    }

    /** Counts "--" among the options (lines 383-393). */
    method TakeDashes()
      requires Valid() && place.AtEnd() && rest != []
      modifies this
      ensures Valid() && head == old(head) && place.AtEnd() && (operands != [] ==> nonoptEnd != -1)
      ensures opts == old(opts) + [old(rest[0])] && operands == old(operands) && rest == old(rest[1..])
    {
      CloseOperands();
      optind := optind + 1;
      place := EMSG;
      TakeWords(head, nonoptStart, opts, operands, rest, 1);
      assert rest[..1] == [rest[0]];
      opts, rest := opts + [rest[0]], rest[1..];
    }

    /** "--" ends the options (lines 390-405). */
    method EndOfOptions()
      requires Valid() && place.AtEnd() && rest != [] && !IsOperand(cfg, rest[0]) && EndsOptions(cfg, rest[0])
      modifies this, nargv
      ensures Valid() && head == old(head)
      ensures Finished(old(Whole())) && old(Whole()).events == [] && !old(Whole()).halted
    {
      ghost var w := Whole();
      assert w.options == opts + [rest[0]] && w.operands == operands && w.tail == rest[1..];
      assert w.events == [] && !w.halted;
      TakeDashes();
      Settle();
    }

    /** A word that is an operand is handed out as the argument of option 1 (lines 354-361). */
    method GiveOperand() returns (code: int)
      requires Valid() && place.AtEnd() && rest != [] && IsOperand(cfg, rest[0]) && cfg.allArgs
      modifies this
      ensures Valid() && head == old(head)
      ensures Gave(old(Whole()), old(optopt), old(idx), code)
      ensures rest == old(rest[1..])
    {
      hide OptionStep, AfterStep;
      assert nargv[optind] == rest[0];
      place := EMSG;
      optarg := Some(nargv[optind]);
      optind := optind + 1;
      TakeWords(head, nonoptStart, opts, operands, rest, 1);
      assert rest[..1] == [rest[0]];
      opts, rest := opts + [rest[0]], rest[1..];
      code := INORDER;
    }

    /** An operand: handed out, the end of the scan, or passed over (lines 353-381). */
    method LookAtOperand() returns (code: Option<int>)
      requires Valid() && optarg == None && place.AtEnd() && rest != [] && IsOperand(cfg, rest[0])
      modifies this, nargv
      ensures Valid() && head == old(head)
      ensures code == None ==> Whole() == old(Whole()) && optarg == None && optopt == old(optopt) && idx == old(idx)
      ensures code == None ==> place.AtEnd() && |rest| < |old(rest)|
      ensures code == Some(-1) ==> Finished(old(Whole())) && old(Whole()).events == [] && !old(Whole()).halted
      ensures code.Some? && code.value != -1 ==>
        Gave(old(Whole()), old(optopt), old(idx), code.value) && |rest| < |old(rest)|
    {
      place := EMSG;
      if cfg.allArgs {
        var c := GiveOperand();
        return Some(c);
      }
      if !cfg.permute {
        return Some(-1);
      }
      SkipOperand();
      code := None;
    }

    /** Points place at the first letter of an option word (lines 351, 383-390). */
    method StartOption()
      requires Valid() && place.AtEnd() && rest != [] && !IsOperand(cfg, rest[0]) && !EndsOptions(cfg, rest[0])
      modifies this`nonoptEnd, this`place
      ensures Valid() && !place.AtEnd() && Letters() <= old(Letters())
      ensures Whole() == old(Whole())
    {
      assert nargv[optind] == rest[0];
      CloseOperands();
      place := Place(nargv[optind], FirstLetter(nargv[optind]));
    }

    /** One round at the label start of getopt_internal (lines 331-405). */
    method LookAtWord() returns (code: Option<int>)
      requires Valid() && optarg == None && place.AtEnd()
      modifies this, nargv
      ensures Valid() && head == old(head)
      ensures code == None ==> Whole() == old(Whole()) && optarg == None && optopt == old(optopt) && idx == old(idx)
      ensures code == None && !place.AtEnd() ==> rest == old(rest) && Letters() <= old(Letters())
      ensures code == None && place.AtEnd() ==> |rest| < |old(rest)|
      ensures code == Some(-1) ==> Finished(old(Whole())) && old(Whole()).events == [] && !old(Whole()).halted
      ensures code.Some? && code.value != -1 ==>
        Gave(old(Whole()), old(optopt), old(idx), code.value) && |rest| < |old(rest)|
    {
      if optind >= nargv.Length {
        EndOfVector();
        return Some(-1);
      }
      var word := nargv[optind];
      assert word == rest[0];
      if IsOperand(cfg, word) {
        code := LookAtOperand();
      } else if EndsOptions(cfg, word) {
        EndOfOptions();
        code := Some(-1);
      } else {
        StartOption();
        code := None;
      }
    }

    /** Finds the next option word (the part of getopt_internal behind its label start). */
    method FindOption() returns (code: Option<int>)
      requires Valid() && optarg == None
      modifies this, nargv
      ensures Valid() && head == old(head)
      ensures code == None ==>
        !place.AtEnd() && Whole() == old(Whole()) && optarg == None && optopt == old(optopt) && idx == old(idx)
      ensures code == Some(-1) ==> Finished(old(Whole())) && old(Whole()).events == [] && !old(Whole()).halted
      ensures code.Some? && code.value != -1 ==> Gave(old(Whole()), old(optopt), old(idx), code.value)
      ensures code != Some(-1) ==>
        |rest| < |old(rest)| || (rest == old(rest) && code == None && Letters() <= old(Letters()))
    {
      code := None;
      while place.AtEnd()
        invariant Valid() && head == old(head) && code == None
        invariant Whole() == old(Whole())
        invariant optarg == None && optopt == old(optopt) && idx == old(idx)
        invariant |rest| < |old(rest)| || (rest == old(rest) && Letters() <= old(Letters()))
        decreases |rest|, if place.AtEnd() then 1 else 0
      {
        code := LookAtWord();
        if code != None {
          return;
        }
      }
    }

    /** parse_long_options, on the text place points to. */
    method ParseLongOptions(shortToo: bool) returns (code: int)
      requires cfg.Valid() && cfg.table.Some? && optarg == None
      requires place.off <= |place.str| && optind < nargv.Length
      modifies this`optind, this`optarg, this`optopt, this`idx
      ensures
        var next := nargv[old(optind) + 1..];
        Shows(LongOutcome(cfg.options, cfg.table.value, place.str[place.off..], next, shortToo),
              old(optind), old(optopt), old(idx), code)
    {
      hide Resolve, FirstAt;
      var current := place.str[place.off..];
      optind := optind + 1;
      var hasEqual := StrChr(current, '=');
      var word := if hasEqual.Some? then current[..hasEqual.value] else current;
      var m := MatchLong(cfg.table.value, word, shortToo);
      if m.Ambiguous? {
        optopt := 0;
        return BADCH;
      }
      if m.Unknown? {
        if shortToo {
          optind := optind - 1;
          return -1;
        }
        optopt := 0;
        return BADCH;
      }
      var o := cfg.table.value[m.index];
      if o.hasArg.NoArgument? && hasEqual.Some? {
        optopt := if o.hasFlag then 0 else o.val;
        return BadArg(cfg.options);
      }
      if !o.hasArg.NoArgument? {
        if hasEqual.Some? {
          optarg := Some(current[hasEqual.value + 1..]);
        } else if o.hasArg.RequiredArgument? {
          // the vector ends with a null pointer
          optarg := if optind < nargv.Length then Some(nargv[optind]) else None;
          optind := optind + 1;
        }
      }
      if o.hasArg.RequiredArgument? && optarg == None {
        optopt := if o.hasFlag then 0 else o.val;
        optind := optind - 1;
        return BadArg(cfg.options);
      }
      idx := m.index;
      code := if o.hasFlag then 0 else o.val;
    }

    /** What the whole scan gives when the option at place uses up some words. */
    ghost predicate Uses(w: Outcome, event: Event, used: nat)
      requires used <= |rest|
      reads this
    {
      var s := Scan(cfg, rest[used..], 0);
      w == Outcome([event] + s.events, opts + (rest[..used] + s.options), operands + s.operands, s.tail, s.halted)
    }

    /** optind has moved past used words that are not yet counted among the options. */
    ghost predicate Ahead(used: nat)
      reads this, nargv
    {
      && cfg.Valid() && |head| == 1 && nargv[..] == head + Arranged() + rest
      && 0 < used <= |rest| && optind == 1 + |opts| + |operands| + used
      && (!cfg.permute || cfg.allArgs ==> operands == [])
      && (if operands == [] then nonoptStart == nonoptEnd == -1
          else 1 <= nonoptStart <= 1 + |opts| && nonoptEnd == nonoptStart + |operands|)
    }

    /** Counts the words just used up among the options. */
    ghost method Advance(w: Outcome, event: Event, used: nat)
      requires Ahead(used) && place.AtEnd()
      requires Uses(w, event, used)
      modifies this`opts, this`rest
      ensures Valid()
      ensures rest == old(rest)[used..]
      ensures w.events != [] && w.events[0] == event && Whole() == w.(events := w.events[1..])
    {
      TakeWords(head, nonoptStart, opts, operands, rest, used);
      opts, rest := opts + rest[..used], rest[used..];
    }

    /** The outcome res of parse_long_options, as the scanner's variables show it. */
    ghost predicate Shows(res: LongResult, optind0: nat, optopt0: int, idx0: int, code: int)
      reads this
    {
      if res.NotLong? then
        code == -1 && optind == optind0 && optarg == None && optopt == optopt0 && idx == idx0
      else
        && code == res.event.code != -1
        && optind == optind0 + 1 + res.extra
        && optarg == res.event.arg
        && optopt == (if res.event.bad.Some? then res.event.bad.value else optopt0)
        && idx == (if res.event.index.Some? then res.event.index.value else idx0)
    }

    /** Calls parse_long_options for the word place is in (lines 416-423). */
    method AttemptLong() returns (code: int)
      requires Valid() && !place.AtEnd() && optarg == None && TriesLong(cfg, rest, place.off)
      modifies this`optind, this`optarg, this`optopt, this`idx, this`place
      ensures Shows(LongAttempt(cfg, rest, old(place.off)), old(optind), old(optopt), old(idx), code)
      ensures code == -1 ==> place == old(place)
    {
      hide LongAttempt, LongOutcome;
      assert nargv[optind + 1..] == rest[1..];
      AttemptMeans(cfg, rest, place.off);
      var c := place.str[place.off];
      var shortToo := false;
      if c == '-' {
        place := place.(off := place.off + 1);
      } else if c != ':' && StrChr(cfg.options, c).Some? {
        shortToo := true;
      }
      code := ParseLongOptions(shortToo);
    }

    /** Tries the word as a long option (lines 414-428). */
    method TryLong() returns (code: int)
      requires Valid() && !place.AtEnd() && optarg == None && TriesLong(cfg, rest, place.off)
      modifies this
      ensures head == old(head)
      ensures code == -1 ==>
        && optarg == None && optopt == old(optopt) && idx == old(idx) && place == old(place) && rest == old(rest)
        && Valid() && Whole() == old(Whole())
        && LongAttempt(cfg, rest, place.off).NotLong?
      ensures code != -1 ==> Valid() && Gave(old(Whole()), old(optopt), old(idx), code) && |rest| < |old(rest)|
    {
      hide LongAttempt, ShortStep, Arrange, Scan;
      ghost var res := LongAttempt(cfg, rest, place.off);
      ghost var w := Whole();
      assert res.Long? ==> Uses(w, res.event, 1 + res.extra);
      code := AttemptLong();
      if code != -1 {
        place := EMSG;
        assert Ahead(1 + res.extra);
        Advance(w, res.event, 1 + res.extra);
      }
    }

    /** The step taken at letter off of a word, as the scanner's variables show it; the
        ghost variables are yet to follow. */
    ghost predicate Took(step: Step, optind0: nat, place0: Place, optopt0: int, idx0: int, code: int)
      reads this
    {
      step.Emit? ==>
        && code == step.event.code != -1
        && optarg == step.event.arg
        && optopt == (if step.event.bad.Some? then step.event.bad.value else optopt0)
        && idx == (if step.event.index.Some? then step.event.index.value else idx0)
        && optind == optind0 + step.used
        && (if step.used == 0 then place == place0.(off := step.off) else place.AtEnd())
    }

    /** -W with a long option as its argument (lines 446-462); place is behind the W. */
    method WordForm() returns (code: int)
      requires cfg.Valid() && cfg.table.Some? && optarg == None && place.off <= |place.str| && optind < nargv.Length
      modifies this`optind, this`optarg, this`optopt, this`idx, this`place
      ensures place.AtEnd()
      ensures var next := nargv[old(optind) + 1..];
        if old(place.AtEnd()) && next == [] then
          Took(Emit(Event(BadArg(cfg.options), None, None, Some('W' as int)), 1, 0), old(optind), old(place),
            old(optopt), old(idx), code)
        else
          var text := if old(place.AtEnd()) then next[0] else old(place.str[place.off..]);
          var following := if old(place.AtEnd()) then next[1..] else next;
          var res := LongOutcome(cfg.options, cfg.table.value, text, following, false);
          var used := (if old(place.AtEnd()) then 2 else 1) + res.extra;
          Took(Emit(res.event, used, 0), old(optind), old(place), old(optopt), old(idx), code)
    {
      hide FirstAt, LongOutcome;
      ghost var next := nargv[optind + 1..];
      if place.AtEnd() {
        optind := optind + 1;
        if optind >= nargv.Length {
          place := EMSG;
          optopt := 'W' as int;
          return BadArg(cfg.options);
        }
        place := Place(nargv[optind], 0);
        assert next[1..] == nargv[optind + 1..];
      }
      assert place.str[place.off..] == if old(place.AtEnd()) then next[0] else old(place.str[place.off..]);
      code := ParseLongOptions(false);
      place := EMSG;
    }

    /** A letter that takes an argument (lines 466-483); place is behind the letter. */
    method LetterWithArgument(c: char, optional: bool) returns (code: int)
      requires place.off <= |place.str| && optind < nargv.Length
      modifies this`optind, this`optarg, this`optopt, this`place
      ensures var next := nargv[old(optind) + 1..];
        var e := if !old(place.AtEnd()) then
            Emit(Event(c as int, Some(old(place.str[place.off..])), None, None), 1, 0)
          else if optional then Emit(Event(c as int, None, None, None), 1, 0)
          else if next == [] then Emit(Event(BadArg(cfg.options), None, None, Some(c as int)), 1, 0)
          else Emit(Event(c as int, Some(next[0]), None, None), 2, 0);
        Took(e, old(optind), old(place), old(optopt), idx, code)
    {
      optarg := None;
      if !place.AtEnd() {
        optarg := Some(place.str[place.off..]);
      } else if !optional {
        optind := optind + 1;
        if optind >= nargv.Length {
          place := EMSG;
          optopt := c as int;
          return BadArg(cfg.options);
        }
        optarg := Some(nargv[optind]);
      }
      place := EMSG;
      optind := optind + 1;
      code := c as int;
    }

    /** A letter of the option string, followed there by after (lines 446-485); place is
        behind the letter. */
    method KnownLetter(c: char, after: string, ghost off: nat) returns (code: int)
      requires cfg.Valid() && rest != [] && off < |rest[0]|
      requires optind < nargv.Length && nargv[optind + 1..] == rest[1..]
      requires place == Place(rest[0], off + 1) && c == rest[0][off] && optarg == None
      requires c != ':' && StrChr(cfg.options, c).Some? && after == cfg.options[StrChr(cfg.options, c).value + 1..]
      modifies this`optind, this`optarg, this`optopt, this`idx, this`place
      ensures Took(ShortStep(cfg, rest, off), old(optind), Place(rest[0], off), old(optopt), old(idx), code)
    {
      if cfg.table.Some? && c == 'W' && after != "" && after[0] == ';' {
        code := WordForm();
      } else if after == "" || after[0] != ':' {
        if place.AtEnd() {
          optind := optind + 1;
        }
        code := c as int;
      } else {
        code := LetterWithArgument(c, |after| > 1 && after[1] == ':');
      }
    }

    /** The short option at place (lines 430-485). */
    method ShortOption() returns (code: int)
      requires Valid() && !place.AtEnd() && optarg == None
      modifies this`optind, this`optarg, this`optopt, this`idx, this`place
      ensures Took(ShortStep(cfg, rest, old(place.off)), old(optind), old(place), old(optopt), old(idx), code)
      ensures ShortStep(cfg, rest, old(place.off)).LoneDash? ==> code == -1 && optind == old(optind)
    {
      assert nargv[optind + 1..] == rest[1..];
      var c := place.str[place.off];
      place := place.(off := place.off + 1);
      var at := StrChr(cfg.options, c);
      if c == ':' || at.None? {
        if c == '-' {
          return -1;
        }
        if place.AtEnd() {
          optind := optind + 1;
        }
        optopt := c as int;
        return BADCH;
      }
      code := KnownLetter(c, cfg.options[at.value + 1..], old(place.off));
    }

    /** The short option at place, with the ghost variables following. */
    method TakeShort() returns (code: int)
      requires Valid() && !place.AtEnd() && optarg == None
      requires OptionStep(cfg, rest, place.off) == ShortStep(cfg, rest, place.off)
      modifies this
      ensures head == old(head)
      ensures var step := ShortStep(cfg, old(rest), old(place.off));
        if step.LoneDash? then code == -1 && Stopped(old(Whole()))
        else Valid() && Gave(old(Whole()), old(optopt), old(idx), code) && rest == old(rest)[step.used..]
      ensures rest == old(rest) && code != -1 ==> Letters() < old(Letters())
    {
      ghost var w := Whole();
      ghost var step := ShortStep(cfg, rest, place.off);
      code := ShortOption();
      if step.LoneDash? {
        assert opts + [] == opts && operands + [] == operands;
        assert w == Outcome([], opts, operands, rest, true);
      } else if step.used > 0 {
        assert Uses(w, step.event, step.used);
        assert Ahead(step.used);
        Advance(w, step.event, step.used);
      } else {
        ghost var s := Scan(cfg, rest, step.off);
        assert rest[0..] == rest && rest[..0] + s.options == s.options;
        assert w == Outcome([step.event] + s.events, opts + s.options, operands + s.operands, s.tail, s.halted);
        assert Remaining() == s;
      }
    }

    /** An option gives an event, and a lone '-' ends the scan. */
    lemma StepSeen()
      requires Valid() && !place.AtEnd()
      ensures var step := OptionStep(cfg, rest, place.off);
        && (Whole().events == [] <==> step.LoneDash?) && (step.LoneDash? ==> Whole().halted)
    {
      hide Scan, OptionStep, Arrange;
    }

    /** Processes the option at place (lines 408-485). */
    method TakeOption() returns (code: int)
      requires Valid() && !place.AtEnd() && optarg == None
      modifies this
      ensures head == old(head)
      ensures old(Whole()).events != [] ==>
        && Valid() && Gave(old(Whole()), old(optopt), old(idx), code)
        && (|rest| < |old(rest)| || (rest == old(rest) && Letters() < old(Letters())))
      ensures old(Whole()).events == [] ==> code == -1 && old(Whole()).halted && Stopped(old(Whole()))
    {
      hide Scan, AfterStep, LongAttempt, ShortStep;
      StepSeen();
      StepIs(cfg, rest, place.off);
      assert nargv[optind] == rest[0];
      if cfg.table.Some? && place != Place(nargv[optind], 0) && (place.str[place.off] == '-' || cfg.longOnly) {
        code := TryLong();
        if code != -1 {
          return;
        }
      }
      code := TakeShort();
    }

    /** One call of getopt_internal. */
    method Next() returns (code: int)
      requires Valid()
      modifies this, nargv
      ensures head == old(head)
      ensures old(Whole()).events != [] ==>
        && Valid() && Gave(old(Whole()), old(optopt), old(idx), code)
        && (|rest| < |old(rest)| || (rest == old(rest) && Letters() < old(Letters())))
      ensures old(Whole()).events == [] ==> code == -1
      ensures old(Whole()).events == [] && !old(Whole()).halted ==> Valid() && Finished(old(Whole()))
      ensures old(Whole()).events == [] && old(Whole()).halted ==> Stopped(old(Whole()))
    {
      hide OptionStep, Scan, AfterStep, Arrange;
      optarg := None;
      var found := FindOption();
      if found.Some? {
        return found.value;
      }
      code := TakeOption();
    }
  }

  /** The return value and the option argument of each event. */
  function Shown(events: seq<Event>): (r: seq<(int, Option<string>)>)
    ensures |r| == |events|
  {
    seq(|events|, i requires 0 <= i < |events| => (events[i].code, events[i].arg))
  }

  function ProgramName(argv: seq<string>): seq<string> {
    argv[..if argv == [] then 0 else 1]
  }

  function Words(argv: seq<string>): seq<string> {
    argv[if argv == [] then 0 else 1..]
  }

  /** A caller's option loop: calls getopt until it returns -1. The codes and arguments are
      those of the scan that leaves the words in place; afterwards all words consumed as
      options come first, then all operands, both in their original order, then the words
      not looked at, and optind is the index of the first operand. Only a scan without long
      options that stops at a lone '-' leaves the operands where they are. */
  method ParseAll(cfg: Config, nargv: array<string>) returns (seen: seq<(int, Option<string>)>, optind: nat)
    requires cfg.Valid()
    modifies nargv
    ensures var argv := old(nargv[..]);
      var w := Scan(cfg, Words(argv), 0);
      && seen == Shown(w.events)
      && (!w.halted ==>
           nargv[..] == ProgramName(argv) + w.options + w.operands + w.tail && optind == 1 + |w.options|)
      && (w.halted ==>
           && optind == 1 + |w.options| + |w.operands|
           && exists start :: InPlace(nargv[..], ProgramName(argv), start, w))
  {
    var s := new Scanner(cfg, nargv);
    ghost var w := s.Whole();
    ghost var given: seq<Event> := [];
    seen := [];
    while true
      invariant s.Valid() && s.head == ProgramName(old(nargv[..])) && fresh(s)
      invariant seen == Shown(given)
      invariant w == Preceded(given, s.Whole())
      decreases |s.rest|, s.Letters()
    {
      ghost var now := s.Whole();
      var code := s.Next();
      if code == -1 {
        assert given + [] == given;
        assert w.halted ==> InPlace(nargv[..], s.head, s.nonoptStart, w);
        return seen, s.optind;
      }
      seen := seen + [(code, s.optarg)];
      PrecededNext(given, now);
      given := given + [now.events[0]];
    }
  }

  ghost function Preceded(given: seq<Event>, w: Outcome): Outcome {
    w.(events := given + w.events)
  }

  lemma PrecededNext(given: seq<Event>, w: Outcome)
    requires w.events != []
    ensures Preceded(given, w) == Preceded(given + [w.events[0]], w.(events := w.events[1..]))
    ensures Shown(given + [w.events[0]]) == Shown(given) + [(w.events[0].code, w.events[0].arg)]
  {
  }
}
