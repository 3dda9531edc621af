/** The functions of expressions that take texts apart or fill them up. */
module TextFunctions {
  import opened CStrings
  import opened Fields

  // ----- TOKEN

  /** What is left of s behind its first nr - 1 delimiters. */
  function RestAt(s: string, d: char, nr: int): string {
    if s == "" || nr <= 1 then s else RestAt(s[1..], d, if s[0] == d then nr - 1 else nr)
  }

  /** Token nr of s. Its end is looked for from its second character on. */
  function Token(s: string, nr: int, d: char): string {
    var t := RestAt(s, d, nr);
    if nr <= 0 || t == "" then "" else [t[0]] + t[1..][..FirstAt(t[1..], d)]
  }

  /** The search for the start of a token (lines 488-493). */
  method StartOfToken(s: string, nr: int, d: char) returns (start: nat)
    ensures start <= |s| && s[start..] == RestAt(s, d, nr)
  {
    var n := nr;
    start := 0;
    assert s[0..] == s;
    while start < |s| && n > 1
      invariant 0 <= start <= |s| && RestAt(s, d, nr) == RestAt(s[start..], d, n)
    {
      assert s[start..][1..] == s[start + 1..];
      if s[start] == d {
        n := n - 1;
      }
      start := start + 1;
    }
  }

  /** The search for its end (line 496). */
  method EndOfToken(s: string, start: nat, d: char) returns (end: nat)
    requires start <= |s|
    ensures start == |s| ==> end == |s| + 1
    ensures start < |s| ==> end == start + 1 + FirstAt(s[start + 1..], d) <= |s|
  {
    end := start + 1;
    while end < |s| && s[end] != d
      invariant start + 1 <= end && (start == |s| ==> end == |s| + 1)
      invariant start < |s| ==>
        end <= |s| && FirstAt(s[start + 1..], d) == end - start - 1 + FirstAt(s[end..], d)
      decreases |s| - end
    {
      assert s[end..][1..] == s[end + 1..];
      end := end + 1;
    }
  }

  /** oris_built_in_token, from its loops on (lines 484-499). A substring never reaches beyond
      its text. */
  method TakeToken(s: string, nr: int, d: char) returns (token: string)
    ensures token == Token(s, nr, d)
  {
    hide RestAt, FirstAt;
    if nr <= 0 {
      return "";
    }
    var start := StartOfToken(s, nr, d);
    var end := EndOfToken(s, start, d);
    token := s[start..if end > |s| then |s| else end];
    ghost var t := s[start..];
    if t != "" {
      assert t[1..] == s[start + 1..];
      assert token == [t[0]] + t[1..][..end - start - 1];
    }
  }

  lemma {:induction false} FirstField(s: string, d: char)
    ensures Split(s, d)[0] == s[..FirstAt(s, d)]
  {
    if s != "" && s[0] != d {
      FirstField(s[1..], d);
    }
  }

  lemma {:induction false} RestSplit(s: string, d: char, k: nat)
    requires k >= 1
    ensures k <= |Split(s, d)| ==> Split(RestAt(s, d, k), d) == Split(s, d)[k - 1..]
    ensures k > |Split(s, d)| ==> RestAt(s, d, k) == ""
  {
    if s != "" && k > 1 {
      RestSplit(s[1..], d, if s[0] == d then k - 1 else k);
    }
  }

  /** TOKEN agrees with the split into fields: token k is the k-th field, or empty if there is
      none. Only an empty field that is followed by another one is not found: its token is the
      delimiter and the field that follows. */
  lemma TokenOfFields(s: string, k: nat, d: char)
    requires k >= 1
    ensures var fields := Split(s, d);
      Token(s, k, d) ==
        if k > |fields| then ""
        else if fields[k - 1] == "" && k < |fields| then [d] + fields[k]
        else fields[k - 1]
  {
    var fields, t := Split(s, d), RestAt(s, d, k);
    RestSplit(s, d, k);
    if k <= |fields| && t != "" {
      assert fields[k - 1] == Split(t, d)[0];
      FirstField(t[1..], d);
      if t[0] == d {
        assert fields[k] == Split(t, d)[1];
      }
    }
  }

  /** The k-th field is what TOKEN returns if and only if it is not an empty one in front of
      another. */
  lemma TokenExact(s: string, k: nat, d: char)
    requires 1 <= k <= |Split(s, d)|
    ensures Token(s, k, d) == Split(s, d)[k - 1] <==> Split(s, d)[k - 1] != "" || k == |Split(s, d)|
  {
    TokenOfFields(s, k, d);
  }

  // ----- LPAD, RPAD

  function Repeat(fill: string, n: nat): (r: string)
    ensures |r| == n * |fill|
  {
    if n == 0 then "" else Repeat(fill, n - 1) + fill
  }

  lemma {:induction false} RepeatFront(fill: string, n: nat)
    ensures Repeat(fill, n + 1) == fill + Repeat(fill, n)
  {
    if n > 0 {
      RepeatFront(fill, n - 1);
      assert fill + (Repeat(fill, n - 1) + fill) == fill + Repeat(fill, n - 1) + fill;
    } else {
      assert "" + fill == fill + "";
    }
  }

  /** How often the fill text is needed. */
  function FillsNeeded(length: nat, minlen: int, fill: string): (n: nat)
    requires length < minlen ==> fill != ""
    ensures length + n * |fill| >= minlen
    ensures n > 0 ==> length + (n - 1) * |fill| < minlen
  {
    if length >= minlen then 0 else (minlen - length + |fill| - 1) / |fill|
  }

  /** The text has its length after this number of rounds. */
  predicate LongEnough(s: string, minlen: int, fill: string, rounds: nat) {
    |s| + |Repeat(fill, rounds)| >= minlen
  }

  /** The loop of oris_built_in_lpad, or the first rounds of it: done says that it has ended. */
  method PadLeft(s: string, minlen: int, fill: string, rounds: nat) returns (r: string, done: bool)
    ensures done <==> LongEnough(s, minlen, fill, rounds)
    ensures !done ==> r == Repeat(fill, rounds) + s
    ensures done ==> Fillable(|s|, minlen, fill) && r == Repeat(fill, FillsNeeded(|s|, minlen, fill)) + s
  {
    r := s;
    var n := 0;
    while |r| < minlen && n < rounds
      invariant n <= rounds && r == Repeat(fill, n) + s
      invariant n > 0 ==> |s| + (n - 1) * |fill| < minlen
    {
      RepeatFront(fill, n);
      r := fill + r;
      n := n + 1;
    }
    done := |r| >= minlen;
    FillsCounted(|s|, minlen, fill, n, rounds);
  }

  /** The loop of oris_built_in_rpad, or the first rounds of it. */
  method PadRight(s: string, minlen: int, fill: string, rounds: nat) returns (r: string, done: bool)
    ensures done <==> LongEnough(s, minlen, fill, rounds)
    ensures !done ==> r == s + Repeat(fill, rounds)
    ensures done ==> Fillable(|s|, minlen, fill) && r == s + Repeat(fill, FillsNeeded(|s|, minlen, fill))
  {
    r := s;
    var n := 0;
    while |r| < minlen && n < rounds
      invariant n <= rounds && r == s + Repeat(fill, n)
      invariant n > 0 ==> |s| + (n - 1) * |fill| < minlen
    {
      r := r + fill;
      n := n + 1;
    }
    done := |r| >= minlen;
    FillsCounted(|s|, minlen, fill, n, rounds);
  }

  /** Nothing is to be filled up, or there is something to fill up with. */
  predicate Fillable(length: nat, minlen: int, fill: string) {
    length < minlen ==> fill != ""
  }

  /** Where the loop stands after n rounds, of which none found the text long enough. */
  lemma FillsCounted(length: nat, minlen: int, fill: string, n: nat, rounds: nat)
    requires n <= rounds && (n > 0 ==> length + (n - 1) * |fill| < minlen)
    ensures length + n * |fill| >= minlen ==>
      Fillable(length, minlen, fill) && n == FillsNeeded(length, minlen, fill) && length + rounds * |fill| >= minlen
  {
    TimesMore(n, rounds, |fill|);
    if length + n * |fill| >= minlen {
      if fill == "" {
        assert n * |fill| == 0;
      }
      SameCount(length, minlen, |fill|, n, FillsNeeded(length, minlen, fill));
    }
  }

  lemma SameCount(length: nat, minlen: int, k: nat, a: nat, b: nat)
    requires length + a * k >= minlen && (a > 0 ==> length + (a - 1) * k < minlen)
    requires length + b * k >= minlen && (b > 0 ==> length + (b - 1) * k < minlen)
    ensures a == b
  {
    if a < b {
      TimesMore(a, b - 1, k);
    } else if b < a {
      TimesMore(b, a - 1, k);
    }
  }

  lemma TimesMore(a: nat, b: nat, c: nat)
    requires a <= b
    ensures a * c <= b * c
  {
  }

  /** The loops end, after some number of rounds, if and only if the text is long enough or there
      is something to fill up with. */
  lemma PaddingEnds(s: string, minlen: int, fill: string)
    ensures (exists rounds: nat :: LongEnough(s, minlen, fill, rounds)) <==> Fillable(|s|, minlen, fill)
  {
    if Fillable(|s|, minlen, fill) {
      assert LongEnough(s, minlen, fill, FillsNeeded(|s|, minlen, fill));
    } else {
      forall n: nat
        ensures !LongEnough(s, minlen, fill, n)
      {
        NothingFilled(s, n);
      }
    }
  }

  /** Filling up with nothing gets nowhere. */
  lemma NothingFilled(s: string, n: nat)
    ensures Repeat("", n) + s == s == s + Repeat("", n)
  {
    assert |Repeat("", n)| == n * 0 == 0;
    assert Repeat("", n) == "" && "" + s == s && s + "" == s;
  }
}
