/** Long command line options: which entry of the option table a word names, and what
    parse_long_options makes of it. */
module LongOptions {
  import opened Wrappers
  import opened CStrings

  datatype HasArg = NoArgument | RequiredArgument | OptionalArgument

  /** An entry of the table; hasFlag is false when the flag pointer is NULL. */
  datatype LongOption = LongOption(name: string, hasArg: HasArg, hasFlag: bool, val: int)

  datatype Match = Found(index: nat) | Ambiguous | Unknown

  /** What one call hands to its caller: the return value, optarg, the value stored
      through idx and the value stored in optopt, if any. */
  datatype Event = Event(code: int, arg: Option<string>, index: Option<nat>, bad: Option<int>)

  datatype LongResult = NotLong | Long(event: Event, extra: nat)

  const BADCH := '?' as int

  function BadArg(options: string): int {
    if options != "" && options[0] == ':' then ':' as int else '?' as int
  }

  predicate Abbreviates(word: string, name: string) {
    |word| <= |name| && name[..|word|] == word
  }

  predicate Exact(table: seq<LongOption>, word: string, i: nat)
    requires i < |table|
  {
    table[i].name == word
  }

  /** Entry i is a proper, admissible abbreviation match. */
  predicate Partial(table: seq<LongOption>, word: string, shortToo: bool, i: nat)
    requires i < |table|
  {
    Abbreviates(word, table[i].name) && |table[i].name| != |word| && !(shortToo && |word| == 1)
  }

  /** The entry found from entry i on when the entries before gave the partial match best. */
  function Resolve(table: seq<LongOption>, word: string, shortToo: bool, i: nat, best: Option<nat>): (m: Match)
    requires i <= |table| && (best.Some? ==> best.value < i)
    ensures m.Found? ==> m.index < |table|
    decreases |table| - i
  {
    if i == |table| then
      if best.Some? then Found(best.value) else Unknown
    else if Exact(table, word, i) then Found(i)
    else if !Partial(table, word, shortToo, i) then Resolve(table, word, shortToo, i + 1, best)
    else if best.None? then Resolve(table, word, shortToo, i + 1, Some(i))
    else Ambiguous
  }

  /** The matching loop of parse_long_options. */
  method MatchLong(table: seq<LongOption>, word: string, shortToo: bool) returns (m: Match)
    ensures m == Resolve(table, word, shortToo, 0, None)
  {
    var best: Option<nat> := None;
    for i := 0 to |table|
      invariant best.Some? ==> best.value < i
      invariant Resolve(table, word, shortToo, 0, None) == Resolve(table, word, shortToo, i, best)
    {
      if !Abbreviates(word, table[i].name) {
        continue;
      }
      if |table[i].name| == |word| {
        return Found(i);
      }
      if shortToo && |word| == 1 {
        continue;
      }
      if best.None? {
        best := Some(i);
      } else {
        return Ambiguous;
      }
    }
    m := if best.Some? then Found(best.value) else Unknown;
  }

  /** Before the first exact match (if any), at least two entries match partially. */
  ghost predicate TwoPartialsFirst(table: seq<LongOption>, word: string, shortToo: bool) {
    exists i, j :: 0 <= i < j < |table|
      && Partial(table, word, shortToo, i) && Partial(table, word, shortToo, j)
      && forall k :: 0 <= k < j ==> !Exact(table, word, k)
  }

  /** What Resolve has established when it reaches entry i. */
  ghost predicate Scanned(table: seq<LongOption>, word: string, shortToo: bool, i: nat, best: Option<nat>)
    requires i <= |table| && (best.Some? ==> best.value < i)
  {
    && (forall k :: 0 <= k < i ==> !Exact(table, word, k))
    && (forall k :: 0 <= k < i ==> (Partial(table, word, shortToo, k) <==> best == Some(k)))
  }

  lemma {:induction false} ResolveFrom(table: seq<LongOption>, word: string, shortToo: bool, i: nat,
      best: Option<nat>)
    requires i <= |table| && (best.Some? ==> best.value < i)
    requires Scanned(table, word, shortToo, i, best)
    ensures var m := Resolve(table, word, shortToo, i, best);
      && (m.Ambiguous? <==> TwoPartialsFirst(table, word, shortToo))
      && (m.Found? ==> Exact(table, word, m.index) || Partial(table, word, shortToo, m.index))
      && (m.Found? && Partial(table, word, shortToo, m.index) ==>
           forall k :: 0 <= k < |table| ==>
             !Exact(table, word, k) && (Partial(table, word, shortToo, k) <==> k == m.index))
      && (m.Unknown? <==> forall k :: 0 <= k < |table| ==>
           !Exact(table, word, k) && !Partial(table, word, shortToo, k))
    decreases |table| - i
  {
    if i == |table| {
    } else if Exact(table, word, i) {
      assert !Partial(table, word, shortToo, i);
    } else if !Partial(table, word, shortToo, i) {
      ResolveFrom(table, word, shortToo, i + 1, best);
    } else if best.None? {
      ResolveFrom(table, word, shortToo, i + 1, Some(i));
    } else {
      assert Partial(table, word, shortToo, best.value);
    }
  }

  /** When a word names a long option: the result is ambiguous exactly if two admissible
      abbreviations precede the first exact match, unknown exactly if nothing matches, and
      a partial match is taken only when it is the one match of the whole table. */
  lemma ResolveMeaning(table: seq<LongOption>, word: string, shortToo: bool)
    ensures var m := Resolve(table, word, shortToo, 0, None);
      && (m.Ambiguous? <==> TwoPartialsFirst(table, word, shortToo))
      && (m.Unknown? <==> forall k :: 0 <= k < |table| ==>
           !Exact(table, word, k) && !Partial(table, word, shortToo, k))
      && (m.Found? ==>
           || Exact(table, word, m.index)
           || (forall k :: 0 <= k < |table| ==>
                 !Exact(table, word, k) && (Partial(table, word, shortToo, k) <==> k == m.index)))
  {
    ResolveFrom(table, word, shortToo, 0, None);
  }

  /** A word that is the exact name of some entry is resolved to an entry of that name if
      and only if at most one longer name it abbreviates comes first. */
  lemma ExactNameFound(table: seq<LongOption>, word: string, shortToo: bool, k: nat)
    requires k < |table| && Exact(table, word, k)
    ensures var m := Resolve(table, word, shortToo, 0, None);
      (m.Found? && Exact(table, word, m.index)) <==> !TwoPartialsFirst(table, word, shortToo)
  {
    ResolveMeaning(table, word, shortToo);
  }

  /** The table of three in which the exact name is reported as ambiguous. */
  lemma ExactNameCanBeAmbiguous()
    ensures exists table: seq<LongOption>, k: nat ::
      k < |table| && Exact(table, "log", k) && Resolve(table, "log", false, 0, None) == Ambiguous
  {
    var entry := (name: string) => LongOption(name, NoArgument, false, 1);
    var table := [entry("logfile"), entry("loglevel"), entry("log")];
    assert Abbreviates("log", "logfile") && Abbreviates("log", "loglevel");
    assert Partial(table, "log", false, 0) && Partial(table, "log", false, 1);
    assert Exact(table, "log", 2);
    assert Resolve(table, "log", false, 1, Some(0)) == Ambiguous;
  }

  /** The word may stand for entry k: its name, or the beginning of its name. One letter that
      could be a short option too is no beginning. */
  predicate Candidate(table: seq<LongOption>, word: string, shortToo: bool, k: nat)
    requires k < |table|
  {
    word == table[k].name || (word <= table[k].name && (shortToo ==> |word| != 1))
  }

  /** The word names entry i: i is the first entry of that very name, and at most one longer name
      that the word begins comes first; or no entry has that name, and i is the only one whose
      name the word begins. */
  ghost predicate Names(table: seq<LongOption>, word: string, shortToo: bool, i: nat) {
    && i < |table| && Candidate(table, word, shortToo, i)
    && if table[i].name == word then
         && (forall k :: 0 <= k < i ==> table[k].name != word)
         && (forall j, k :: 0 <= j < k < i ==>
               !Candidate(table, word, shortToo, j) || !Candidate(table, word, shortToo, k))
       else
         forall k :: 0 <= k < |table| && k != i ==> !Candidate(table, word, shortToo, k)
  }

  lemma CandidateIs(table: seq<LongOption>, word: string, shortToo: bool, k: nat)
    requires k < |table|
    ensures Candidate(table, word, shortToo, k) <==> Exact(table, word, k) || Partial(table, word, shortToo, k)
    ensures Exact(table, word, k) ==> !Partial(table, word, shortToo, k)
  {
    var name := table[k].name;
    if |word| <= |name| && name[..|word|] == word && |name| == |word| {
      assert name[..|word|] == name;
    }
  }

  /** What the search has found from entry i on, when best is the candidate before. */
  lemma {:induction false} NamedFrom(
    table: seq<LongOption>, word: string, shortToo: bool, i: nat, best: Option<nat>, m: nat)
    requires i <= |table| && (best.Some? ==> best.value < i)
    requires Scanned(table, word, shortToo, i, best)
    ensures Resolve(table, word, shortToo, i, best) == Found(m) <==> Names(table, word, shortToo, m)
    decreases |table| - i
  {
    hide Exact, Partial, Candidate;
    forall k | 0 <= k < |table|
      ensures Candidate(table, word, shortToo, k) <==> Exact(table, word, k) || Partial(table, word, shortToo, k)
      ensures Exact(table, word, k) ==> !Partial(table, word, shortToo, k)
      ensures Exact(table, word, k) <==> table[k].name == word
    {
      CandidateIs(table, word, shortToo, k);
      ExactIs(table, word, k);
    }
    if i == |table| {
    } else if Exact(table, word, i) {
    } else if !Partial(table, word, shortToo, i) {
      NamedFrom(table, word, shortToo, i + 1, best, m);
    } else if best.None? {
      NamedFrom(table, word, shortToo, i + 1, Some(i), m);
    } else {
      var b := best.value;
      assert Candidate(table, word, shortToo, b) && Candidate(table, word, shortToo, i) && b != i;
    }
  }

  lemma ExactIs(table: seq<LongOption>, word: string, k: nat)
    requires k < |table|
    ensures Exact(table, word, k) <==> table[k].name == word
  {
  }

  /** A word is resolved to the entry it names, if it names one, and to none otherwise. */
  lemma NamedExactly(table: seq<LongOption>, word: string, shortToo: bool, m: nat)
    ensures Resolve(table, word, shortToo, 0, None) == Found(m) <==> Names(table, word, shortToo, m)
  {
    NamedFrom(table, word, shortToo, 0, None, m);
  }

  /** It is unknown if and only if there is no candidate at all. */
  lemma UnknownExactly(table: seq<LongOption>, word: string, shortToo: bool)
    ensures Resolve(table, word, shortToo, 0, None) == Unknown
      <==> forall k :: 0 <= k < |table| ==> !Candidate(table, word, shortToo, k)
  {
    hide Exact, Partial, Candidate, Resolve;
    ResolveMeaning(table, word, shortToo);
    forall k | 0 <= k < |table|
      ensures Candidate(table, word, shortToo, k) <==> Exact(table, word, k) || Partial(table, word, shortToo, k)
    {
      CandidateIs(table, word, shortToo, k);
    }
  }

  /** A missing or unwanted argument is reported as ':' if the option letters start with one, as
      '?' otherwise; other errors always as '?'. */
  lemma ErrorCodes(options: string)
    ensures BadArg(options) == (if ":" <= options then 58 else 63) && BADCH == 63
  {
  }

  /** What parse_long_options makes of text, the word without its dashes, when the words
      in next follow it. */
  function LongOutcome(options: string, table: seq<LongOption>, text: string, next: seq<string>,
      shortToo: bool): (r: LongResult)
    ensures r.Long? ==> r.extra <= |next|
    ensures r.NotLong? ==> shortToo
  {
    var eq := StrChr(text, '=');
    var word := if eq.Some? then text[..eq.value] else text;
    match Resolve(table, word, shortToo, 0, None)
    case Ambiguous => Long(Event(BADCH, None, None, Some(0)), 0)
    case Unknown => if shortToo then NotLong else Long(Event(BADCH, None, None, Some(0)), 0)
    case Found(i) =>
      var bad := if table[i].hasFlag then 0 else table[i].val;
      var code := if table[i].hasFlag then 0 else table[i].val;
      if table[i].hasArg.NoArgument? then
        if eq.Some? then Long(Event(BadArg(options), None, None, Some(bad)), 0)
        else Long(Event(code, None, Some(i), None), 0)
      else if eq.Some? then Long(Event(code, Some(text[eq.value + 1..]), Some(i), None), 0)
      else if table[i].hasArg.OptionalArgument? then Long(Event(code, None, Some(i), None), 0)
      else if next == [] then Long(Event(BadArg(options), None, None, Some(bad)), 0)
      else Long(Event(code, Some(next[0]), Some(i), None), 1)
  }
}
