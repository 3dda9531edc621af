/** The conversion of received lines from Latin-1 to UTF-8. */
module Latin1 {
  import opened Wrappers
  import opened CStrings
  import opened Fields

  type Byte = c: char | c as int < 256 witness 'a'

  function Units(c: Byte): nat {
    if c as int >= 128 then 2 else 1
  }

  /** The octets written for one character. */
  function Encode(c: Byte): (r: seq<Byte>)
    ensures |r| == Units(c)
  {
    if c as int < 128 then [c]
    else [(0xC2 + if c as int > 0xBF then 1 else 0) as char, (0x80 + c as int % 64) as char]
  }

  /** One octet below 128; two from there on: 192 plus the upper two bits, and 128 plus the lower
      six. */
  lemma EncodeIs(c: Byte)
    ensures var n := c as int;
      if n < 128 then Encode(c) == [c]
      else |Encode(c)| == 2 && Encode(c)[0] as int == 192 + n / 64 && Encode(c)[1] as int == 128 + n % 64
  {
  }

  function ToUtf8(line: seq<Byte>): (r: seq<Byte>) {
    if line == [] then [] else Encode(line[0]) + ToUtf8(line[1..])
  }

  function Size(line: seq<Byte>): nat {
    if line == [] then 0 else Units(line[0]) + Size(line[1..])
  }

  predicate Tail(s: string, i: nat) {
    i < |s| && 0x80 <= s[i] as int <= 0xBF
  }

  /** The character a sequence of octets starts with, and how many octets it takes, by the
      definition of UTF-8 in section 3 of RFC 3629 (shortest form only, no surrogates). */
  function DecodeFirst(s: string): Option<(int, nat)>
    requires s != ""
  {
    var b := s[0] as int;
    if b < 0x80 then Some((b, 1))
    else if 0xC0 <= b < 0xE0 && Tail(s, 1) then
      var c := (b - 0xC0) * 64 + s[1] as int - 0x80;
      if c >= 0x80 then Some((c, 2)) else None
    else if 0xE0 <= b < 0xF0 && Tail(s, 1) && Tail(s, 2) then
      var c := (b - 0xE0) * 4096 + (s[1] as int - 0x80) * 64 + s[2] as int - 0x80;
      if c >= 0x800 && !(0xD800 <= c < 0xE000) then Some((c, 3)) else None
    else if 0xF0 <= b < 0xF8 && Tail(s, 1) && Tail(s, 2) && Tail(s, 3) then
      var c := (b - 0xF0) * 262144 + (s[1] as int - 0x80) * 4096 + (s[2] as int - 0x80) * 64 + s[3] as int - 0x80;
      if 0x10000 <= c <= 0x10FFFF then Some((c, 4)) else None
    else None
  }

  /** The character numbers encoded by a sequence of octets. */
  function Decode(s: string): Option<seq<int>> {
    if s == "" then Some([])
    else
      var first := DecodeFirst(s);
      if first.None? || first.value.1 == 0 || first.value.1 > |s| then None
      else
        var rest := Decode(s[first.value.1..]);
        if rest.None? then None else Some([first.value.0] + rest.value)
  }

  function Codes(line: seq<Byte>): (r: seq<int>)
    ensures |r| == |line|
  {
    seq(|line|, i requires 0 <= i < |line| => line[i] as int)
  }

  /** Decoding the output gives the input bytes as character numbers. */
  lemma {:induction false} DecodeUtf8(line: seq<Byte>)
    ensures Decode(ToUtf8(line)) == Some(Codes(line))
  {
    if line != [] {
      DecodeUtf8(line[1..]);
      var s := ToUtf8(line);
      EncodeFirst(line[0], ToUtf8(line[1..]));
      assert s[Units(line[0])..] == ToUtf8(line[1..]);
      assert Codes(line) == [line[0] as int] + Codes(line[1..]);
    }
  }

  lemma EncodeFirst(c: Byte, rest: seq<Byte>)
    ensures DecodeFirst(Encode(c) + rest) == Some((c as int, Units(c)))
  {
  }

  /** Different lines stay different. */
  lemma ToUtf8Injective(a: seq<Byte>, b: seq<Byte>)
    requires ToUtf8(a) == ToUtf8(b)
    ensures a == b
  {
    DecodeUtf8(a);
    DecodeUtf8(b);
    forall i | 0 <= i < |a|
      ensures |a| == |b| && a[i] == b[i]
    {
      assert Codes(a)[i] == Codes(b)[i];
    }
  }

  function EachToUtf8(fields: seq<seq<Byte>>): (r: seq<seq<Byte>>)
    ensures |r| == |fields|
    ensures forall i :: 0 <= i < |r| ==> r[i] == ToUtf8(fields[i])
  {
    if fields == [] then [] else [ToUtf8(fields[0])] + EachToUtf8(fields[1..])
  }

  /** The fields of a line of bytes, which are bytes again. */
  function SplitBytes(line: seq<Byte>, d: char): (r: seq<seq<Byte>>)
    ensures r == Split(line, d) && r != []
  {
    if line == [] then [[]]
    else
      var r := SplitBytes(line[1..], d);
      if line[0] == d then [[]] + r else [[line[0]] + r[0]] + r[1..]
  }

  /** Text free of the delimiter in front of a text becomes part of its first field. */
  lemma {:induction false} SplitPrepend(p: string, s: string, d: char)
    requires d !in p
    ensures Split(p + s, d) == [p + Split(s, d)[0]] + Split(s, d)[1..]
  {
    if p == "" {
      var r := Split(s, d);
      assert p + s == s && p + r[0] == r[0] && [r[0]] + r[1..] == r;
    } else {
      assert (p + s)[1..] == p[1..] + s;
      assert p[0] in p;
      SplitPrepend(p[1..], s, d);
      assert [p[0]] + (p[1..] + Split(s, d)[0]) == p + Split(s, d)[0];
    }
  }

  /** Converting a line and splitting it at an ASCII delimiter is the same as splitting it
      and converting the fields. */
  lemma {:induction false} ToUtf8Split(line: seq<Byte>, d: Byte)
    requires d as int < 128
    ensures Split(ToUtf8(line), d) == EachToUtf8(SplitBytes(line, d))
  {
    if line != [] {
      ToUtf8Split(line[1..], d);
      var c, u, r := line[0], ToUtf8(line[1..]), SplitBytes(line[1..], d);
      var e := EachToUtf8(r);
      if c == d {
        assert ToUtf8(line) == [d] + u && ([d] + u)[1..] == u;
        assert EachToUtf8([[]] + r) == [[]] + e;
      } else {
        assert d !in Encode(c);
        SplitPrepend(Encode(c), u, d);
        var f: seq<Byte> := [c] + r[0];
        assert f[1..] == r[0];
        assert ToUtf8(f) == Encode(c) + e[0];
        assert e[1..] == EachToUtf8(r[1..]);
        assert ([f] + r[1..])[1..] == r[1..];
      }
    }
  }

  lemma {:induction false} SizeIs(line: seq<Byte>)
    ensures |ToUtf8(line)| == Size(line)
  {
    if line != [] {
      SizeIs(line[1..]);
    }
  }

  lemma {:induction false} SizeAppend(line: seq<Byte>, c: Byte)
    ensures Size(line + [c]) == Size(line) + Units(c)
    ensures ToUtf8(line + [c]) == ToUtf8(line) + Encode(c)
  {
    if line != [] {
      SizeAppend(line[1..], c);
      assert (line + [c])[1..] == line[1..] + [c];
    } else {
      assert line + [c] == [c];
    }
  }

  lemma {:induction false} SizeMonotone(line: seq<Byte>, k: nat)
    requires k <= |line|
    ensures Size(line[..k]) <= Size(line)
  {
    if k > 0 {
      SizeMonotone(line[1..], k - 1);
      assert line[..k][1..] == line[1..][..k - 1];
    }
  }

  /** The first pass: counts the octets (lines 116-120). */
  method CountOctets(line: seq<Byte>) returns (size: nat)
    ensures size == |ToUtf8(line)|
  {
    size := 0;
    for c := 0 to |line|
      invariant size == Size(line[..c])
    {
      SizeAppend(line[..c], line[c]);
      assert line[..c + 1] == line[..c] + [line[c]];
      size := size + 1;
      if line[c] as int >= 128 {
        size := size + 1;
      }
    }
    assert line[..|line|] == line;
    SizeIs(line);
  }

  lemma PrefixGrows(line: seq<Byte>, c: nat)
    requires c < |line|
    ensures ToUtf8(line[..c + 1]) == ToUtf8(line[..c]) + Encode(line[c])
    ensures |ToUtf8(line[..c + 1])| <= |ToUtf8(line)|
  {
    SizeAppend(line[..c], line[c]);
    assert line[..c + 1] == line[..c] + [line[c]];
    SizeIs(line[..c + 1]);
    SizeIs(line);
    SizeMonotone(line, c + 1);
  }

  /** strdup_iso8859_to_utf8: one pass counts the octets, one writes them; the buffer is
      filled exactly, up to its terminating NUL. */
  method StrdupIso8859ToUtf8(line: seq<Byte>) returns (retval: array<Byte>)
    ensures fresh(retval)
    ensures retval[..] == ToUtf8(line) + [NUL]
  {
    var size := CountOctets(line);
    retval := new Byte[size + 1](i => NUL);
    var out, c := 0, 0;
    while c < |line|
      invariant 0 <= c <= |line|
      invariant out == |ToUtf8(line[..c])| <= size && retval[..out] == ToUtf8(line[..c])
    {
      PrefixGrows(line, c);
      if line[c] as int < 128 {
        retval[out] := line[c];
        out := out + 1;
      } else {
        retval[out] := (0xC2 + if line[c] as int > 0xBF then 1 else 0) as char;
        out := out + 1;
        retval[out] := (0x80 + line[c] as int % 64) as char;
        out := out + 1;
      }
      c := c + 1;
    }
    retval[out] := NUL;
    assert line[..|line|] == line;
  }
}
