/** Records and their fields: text split at a delimiter, and joined again. */
module Fields {
  import opened CStrings

  /** The fields between the delimiters of s. */
  function Split(s: string, d: char): (r: seq<string>)
    ensures r != []
  {
    if s == "" then [""]
    else
      var r := Split(s[1..], d);
      if s[0] == d then [""] + r else [[s[0]] + r[0]] + r[1..]
  }

  /** The fields one after the other with a delimiter between them. */
  function Join(fields: seq<string>, d: char): string
    requires fields != []
  {
    if |fields| == 1 then fields[0] else fields[0] + [d] + Join(fields[1..], d)
  }

  lemma {:induction false} JoinSplit(s: string, d: char)
    ensures Join(Split(s, d), d) == s
    ensures forall i :: 0 <= i < |Split(s, d)| ==> d !in Split(s, d)[i]
  {
    if s != "" {
      JoinSplit(s[1..], d);
      var r := Split(s[1..], d);
      if s[0] == d {
        assert ([""] + r)[1..] == r;
        assert s == [d] + s[1..];
      } else {
        assert Join([[s[0]] + r[0]] + r[1..], d) == [s[0]] + Join(r, d) by {
          if |r| > 1 {
            assert ([[s[0]] + r[0]] + r[1..])[1..] == r[1..];
          }
        }
      }
    }
  }

  /** The first field of s, when it ends at n. */
  lemma {:induction false} SplitFirst(s: string, d: char, n: nat)
    requires n <= |s| && d !in s[..n] && (n < |s| ==> s[n] == d)
    ensures Split(s, d) == [s[..n]] + if n < |s| then Split(s[n + 1..], d) else []
  {
    if n == 0 {
      if s != "" {
        assert s[..0] == "";
      }
    } else {
      assert s[0] == s[..n][0] != d;
      assert forall c :: c in s[1..][..n - 1] ==> c in s[..n];
      SplitFirst(s[1..], d, n - 1);
      assert [s[0]] + s[1..][..n - 1] == s[..n];
      if n < |s| {
        assert s[1..][n..] == s[n + 1..];
      }
    }
  }

  /** Fields without delimiters are the only ones that join to a text. */
  lemma {:induction false} SplitJoin(fields: seq<string>, d: char)
    requires fields != [] && forall i :: 0 <= i < |fields| ==> d !in fields[i]
    ensures Split(Join(fields, d), d) == fields
  {
    var s, n := Join(fields, d), |fields[0]|;
    assert s[..n] == fields[0];
    SplitFirst(s, d, n);
    if |fields| > 1 {
      SplitJoin(fields[1..], d);
      assert s[n + 1..] == Join(fields[1..], d);
      assert fields == [fields[0]] + fields[1..];
    }
  }

  /** A text has one way to be read as delimiter-free fields. */
  lemma SplitUnique(s: string, d: char, fields: seq<string>)
    requires fields != [] && (forall i :: 0 <= i < |fields| ==> d !in fields[i])
    ensures Join(fields, d) == s <==> fields == Split(s, d)
  {
    JoinSplit(s, d);
    SplitJoin(fields, d);
  }

  function Count(s: string, d: char): nat {
    if s == "" then 0 else (if s[0] == d then 1 else 0) + Count(s[1..], d)
  }

  lemma {:induction false} SplitCount(s: string, d: char)
    ensures |Split(s, d)| == 1 + Count(s, d)
  {
    if s != "" {
      SplitCount(s[1..], d);
    }
  }

  lemma {:induction false} CountAppend(s: string, c: char, d: char)
    ensures Count(s + [c], d) == Count(s, d) + if c == d then 1 else 0
  {
    if s != "" {
      CountAppend(s[1..], c, d);
      assert (s + [c])[1..] == s[1..] + [c];
    }
  }

  /** strlen, from position p of a buffer on. */
  method StrLen(buf: array<char>, p: nat) returns (n: nat)
    requires p < buf.Length && exists k :: p <= k < buf.Length && buf[k] == NUL
    ensures p + n < buf.Length && buf[p + n] == NUL
    ensures forall k :: p <= k < p + n ==> buf[k] != NUL
  {
    n := 0;
    while buf[p + n] != NUL
      invariant p + n < buf.Length
      invariant forall k :: p <= k < p + n ==> buf[k] != NUL
      decreases buf.Length - n
    {
      n := n + 1;
    }
  }

  /** strdup */
  method StrDup(s: string) returns (buf: array<char>)
    ensures fresh(buf) && buf.Length == |s| + 1
    ensures buf[..] == s + [NUL]
  {
    buf := new char[|s| + 1](i => NUL);
    for k := 0 to |s|
      invariant forall j :: 0 <= j < k ==> buf[j] == s[j]
      invariant buf[|s|] == NUL
    {
      buf[k] := s[k];
    }
    assert forall k :: 0 <= k < |s| ==> buf[..][k] == s[k];
  }

  /** Cuts the text in a buffer at its delimiters, in place, and counts the fields
      (lines 37-43 of oris_table_add_row). */
  method CutAtDelimiters(buf: array<char>, s: string, delim: char) returns (fieldCount: nat)
    requires NUL !in s && buf.Length == |s| + 1 && buf[..] == s + [NUL]
    modifies buf
    ensures fieldCount == |Split(s, delim)|
    ensures IsCut(buf[..], s, delim)
  {
    assert forall k :: 0 <= k < |s| ==> s[k] in s;
    fieldCount := 1;
    var ptr := 0;
    while buf[ptr] != NUL
      invariant 0 <= ptr <= |s| && buf[|s|] == NUL
      invariant fieldCount == 1 + Count(s[..ptr], delim)
      invariant forall k :: 0 <= k < ptr ==> buf[k] == if s[k] == delim then NUL else s[k]
      invariant forall k :: ptr <= k < |s| ==> buf[k] == s[k]
      decreases |s| - ptr
    {
      CountAppend(s[..ptr], s[ptr], delim);
      assert s[..ptr + 1] == s[..ptr] + [s[ptr]];
      if buf[ptr] == delim {
        fieldCount := fieldCount + 1;
        buf[ptr] := NUL;
      }
      ptr := ptr + 1;
    }
    assert s[..ptr] == s;
    SplitCount(s, delim);
  }

  /** The buffer holds s with its delimiters cut out. */
  ghost predicate IsCut(buf: seq<char>, s: string, delim: char) {
    && |buf| == |s| + 1 && buf[|s|] == NUL
    && forall k :: 0 <= k < |s| ==> s[k] != NUL && buf[k] == if s[k] == delim then NUL else s[k]
  }

  /** Copies the piece that starts at ptr (lines 49-50). */
  method CopyPiece(buf: array<char>, ptr: nat, ghost s: string, ghost delim: char) returns (piece: string)
    requires IsCut(buf[..], s, delim) && ptr <= |s|
    ensures ptr + |piece| <= |s| && piece == s[ptr..ptr + |piece|]
    ensures Split(s[ptr..], delim)
      == [piece] + if ptr + |piece| < |s| then Split(s[ptr + |piece| + 1..], delim) else []
  {
    assert buf[|s|] == NUL;
    var n := StrLen(buf, ptr);
    piece := buf[ptr..ptr + n];
    assert forall k :: 0 <= k < |s| ==> buf[k] == buf[..][k];
    assert piece == s[ptr..ptr + n];
    SplitNext(s, delim, ptr, n);
  }

  /** The record splitter of oris_table_add_row (lines 32-53): one pass that cuts the copied
      text in place, one that copies the pieces. */
  method SplitRecord(s: string, delim: char) returns (fields: seq<string>)
    requires NUL !in s && delim != NUL
    ensures fields == Split(s, delim)
  {
    var buf := StrDup(s);
    var fieldCount := CutAtDelimiters(buf, s, delim);
    var ptr := 0;
    fields := [];
    ghost var left := Split(s, delim);
    assert s[0..] == s;
    for i := 0 to fieldCount
      invariant |left| == fieldCount - i && fields + left == Split(s, delim)
      invariant left != [] ==> 0 <= ptr <= |s| && left == Split(s[ptr..], delim)
      invariant IsCut(buf[..], s, delim)
    {
      hide IsCut, Split;
      var piece := CopyPiece(buf, ptr, s, delim);
      fields := fields + [piece];
      ptr := ptr + |piece| + 1;
      left := left[1..];
    }
  }

  /** The field that starts at p and has length n, and those behind it. */
  lemma SplitNext(s: string, d: char, p: nat, n: nat)
    requires p + n <= |s| && d !in s[p..p + n] && (p + n < |s| ==> s[p + n] == d)
    ensures Split(s[p..], d) == [s[p..p + n]] + if p + n < |s| then Split(s[p + n + 1..], d) else []
  {
    assert s[p..][..n] == s[p..p + n];
    SplitFirst(s[p..], d, n);
    if p + n < |s| {
      assert s[p..][n + 1..] == s[p + n + 1..];
    }
  }
}
