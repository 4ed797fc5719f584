/** base64.hpp: encoding and decoding of streams that arrive in chunks (section 4 of RFC 4648).
    Bytes are integers from 0 to 255; a mask with a shift is written as the quotient and remainder it takes. */
module Base64 {

  type Byte = x: int | 0 <= x < 256

  // ---- the standard's view ----

  /** Character `k` of the group that stands for the 24-bit number `n`. */
  function Sextet(n: int, k: int): (v: int)
    requires 0 <= k < 4
    ensures 0 <= v < 64
  {
    (if k == 0 then n / 0x4_0000 else if k == 1 then n / 0x1000 else if k == 2 then n / 64 else n) % 64
  }

  /** The alphabet: upper case, lower case, digits, plus and slash. */
  function Symbol(v: int): char
    requires 0 <= v < 64
  {
    if v < 26 then ('A' as int + v) as char
    else if v < 52 then ('a' as int + (v - 26)) as char
    else if v < 62 then ('0' as int + (v - 52)) as char
    else if v == 62 then '+' else '/'
  }

  predicate InAlphabet(c: char)
  {
    'A' <= c <= 'Z' || 'a' <= c <= 'z' || '0' <= c <= '9' || c == '+' || c == '/'
  }

  function Number(x: Byte, y: Byte, z: Byte): int
  {
    x * 0x1_0000 + y * 0x100 + z
  }

  function Group(x: Byte, y: Byte, z: Byte): string
  {
    var n := Number(x, y, z);
    [Symbol(Sextet(n, 0)), Symbol(Sextet(n, 1)), Symbol(Sextet(n, 2)), Symbol(Sextet(n, 3))]
  }

  /** One or two final bytes: zero bits are added on the right, and `=` fills the last positions. */
  function Tail(b: seq<Byte>): string
    requires |b| < 3
  {
    if |b| == 0 then []
    else if |b| == 1 then Group(b[0], 0, 0)[..2] + "=="
    else Group(b[0], b[1], 0)[..3] + "="
  }

  function Encode(b: seq<Byte>): string
  {
    if |b| < 3 then Tail(b) else Group(b[0], b[1], b[2]) + Encode(b[3..])
  }

  // ---- the helpers of base64.hpp ----

  lemma {:induction false} SextetsOf(x: Byte, y: Byte, z: Byte)
    ensures var n := Number(x, y, z);
            && Sextet(n, 0) == x / 4 && Sextet(n, 1) == x % 4 * 16 + y / 16
            && Sextet(n, 2) == y % 16 * 4 + z / 64 && Sextet(n, 3) == z % 64
  {
    var n := Number(x, y, z);
    Shift(n, 0x4_0000, x / 4, x % 4 * 0x1_0000 + y * 0x100 + z);
    Shift(n, 0x1000, x * 16 + y / 16, y % 16 * 0x100 + z);
    Shift(n, 64, x * 0x400 + y * 4 + z / 64, z % 64);
    Shift(x * 16 + y / 16, 64, x / 4, x % 4 * 16 + y / 16);
    Shift(x * 0x400 + y * 4 + z / 64, 64, x * 16 + y / 16, y % 16 * 4 + z / 64);
  }

  /** A number split at a power of two. */
  lemma Shift(n: int, unit: int, q: int, r: int)
    requires unit in {4, 16, 64, 0x1000, 0x4_0000} && n == q * unit + r && 0 <= r < unit
    ensures n / unit == q && n % unit == r
  {
  }

  /** `a3_to_a4`: three bytes to four 6-bit values. */
  method A3ToA4(a4: array<Byte>, a3: array<Byte>)
    requires a4.Length == 4 && a3.Length == 3 && a3 != a4
    modifies a4
    ensures var n := Number(a3[0], a3[1], a3[2]);
            a4[0] == Sextet(n, 0) && a4[1] == Sextet(n, 1) && a4[2] == Sextet(n, 2) && a4[3] == Sextet(n, 3)
  {
    SextetsOf(a3[0], a3[1], a3[2]);
    var x: int, y: int, z: int := a3[0], a3[1], a3[2];
    a4[0] := x / 4;
    a4[1] := x % 4 * 16 + y / 16;
    a4[2] := y % 16 * 4 + z / 64;
    a4[3] := z % 64;
  }

  function Join0(a: int, b: int): Byte { (a * 4 + b / 16 % 4) % 256 }
  function Join1(b: int, c: int): Byte { (b % 16 * 16 + c / 4 % 16) % 256 }
  function Join2(c: int, d: int): Byte { (c % 4 * 64 + d) % 256 }

  /** `a4_to_a3` on any four byte values, the results truncated to a byte. */
  method A4ToA3(a3: array<Byte>, a4: array<Byte>)
    requires a4.Length == 4 && a3.Length == 3 && a3 != a4
    modifies a3
    ensures a3[0] == Join0(a4[0], a4[1]) && a3[1] == Join1(a4[1], a4[2]) && a3[2] == Join2(a4[2], a4[3])
  {
    var a: int, b: int, c: int, d: int := a4[0], a4[1], a4[2], a4[3];
    a3[0] := (a * 4 + b / 16 % 4) % 256;
    a3[1] := (b % 16 * 16 + c / 4 % 16) % 256;
    a3[2] := (c % 4 * 64 + d) % 256;
  }

  /** A character of one byte. */
  type Char = c: char | c as int < 256 witness 'A'

  /** `b64_lookup`: the value of a character of the alphabet, or 255. */
  function Lookup(n: Byte): (v: Byte)
    ensures v < 64 <==> InAlphabet(n as char)
    ensures v < 64 ==> Symbol(v) == n as char
    ensures v >= 64 ==> v == 255
  {
    var c := n as char;
    if 'A' <= c <= 'Z' then n - 'A' as int
    else if 'a' <= c <= 'z' then n - 71
    else if '0' <= c <= '9' then n + 4
    else if c == '+' then 62
    else if c == '/' then 63
    else 255
  }

  function CharValue(c: Char): Byte
  {
    Lookup(c as int)
  }

  lemma LookupSymbol(v: int)
    requires 0 <= v < 64
    ensures Symbol(v) as int < 256 && CharValue(Symbol(v)) == v && Symbol(v) != '=' && InAlphabet(Symbol(v))
  {
  }

  // ---- position by position ----

  const ALPHABET: string := "ABCDEFGHIJKLMNOPQRSTUVWXYZ" + "abcdefghijklmnopqrstuvwxyz" + "0123456789+/"

  /** The symbols are the characters of the alphabet in their order. */
  lemma SymbolOrder(v: int)
    requires 0 <= v < 64
    ensures |ALPHABET| == 64 && Symbol(v) == ALPHABET[v]
  {
  }

  /** A byte of the input, or the zero that pads it. */
  function ByteAt(b: seq<Byte>, j: nat): Byte
  {
    if j < |b| then b[j] else 0
  }

  /** The four characters for three bytes of which `n` are there: each is six of their bits, or `=` when none of these
      are of a byte that is there. */
  function FourOf(x: Byte, y: Byte, z: Byte, n: int): string
  {
    [Symbol(x / 4), Symbol(x % 4 * 16 + y / 16),
     if n > 1 then Symbol(y % 16 * 4 + z / 64) else '=', if n > 2 then Symbol(z % 64) else '=']
  }

  /** Group `q` of an encoding. */
  lemma {:induction false} EncodeAt(b: seq<Byte>, q: nat)
    requires 3 * q < |b|
    ensures 4 * q + 4 <= |Encode(b)|
    ensures Encode(b)[4 * q..4 * q + 4] ==
            FourOf(b[3 * q], ByteAt(b, 3 * q + 1), ByteAt(b, 3 * q + 2), |b| - 3 * q)
    decreases |b|
  {
    if q == 0 {
      if |b| >= 3 { FullGroup(b); } else { LastGroup(b); }
    } else {
      EncodeAt(b[3..], q - 1);
      BytesLater(b, q);
      var g, rest := Group(b[0], b[1], b[2]), Encode(b[3..]);
      assert Encode(b) == g + rest && |g| == 4;
      LaterGroup(g, rest, 4 * q);
    }
  }

  lemma BytesLater(b: seq<Byte>, q: nat)
    requires 0 < q && 3 * q < |b|
    ensures var i, later := 3 * q, b[3..];
            && 3 * (q - 1) < |later| && 3 * (q - 1) == i - 3 && later[i - 3] == b[i]
            && ByteAt(later, i - 2) == ByteAt(b, i + 1) && ByteAt(later, i - 1) == ByteAt(b, i + 2)
  {
  }

  lemma FullGroup(b: seq<Byte>)
    requires |b| >= 3
    ensures 4 <= |Encode(b)| && Encode(b)[..4] == FourOf(b[0], b[1], b[2], |b|)
  {
    GroupAt(b[0], b[1], b[2]);
    var g, rest := Group(b[0], b[1], b[2]), Encode(b[3..]);
    assert Encode(b) == g + rest;
    assert (g + rest)[..4] == g;
  }

  lemma LastGroup(b: seq<Byte>)
    requires 0 < |b| < 3
    ensures |Encode(b)| == 4 && Encode(b)[..4] == FourOf(b[0], ByteAt(b, 1), ByteAt(b, 2), |b|)
  {
    GroupAt(b[0], ByteAt(b, 1), 0);
    var g := Group(b[0], ByteAt(b, 1), 0);
    assert Encode(b) == if |b| == 1 then [g[0], g[1], '=', '='] else [g[0], g[1], g[2], '='];
  }

  lemma LaterGroup<T>(front: seq<T>, rest: seq<T>, p: nat)
    requires |front| <= p && p - |front| + 4 <= |rest|
    ensures (front + rest)[p..p + 4] == rest[p - |front|..p - |front| + 4]
  {
  }

  /** Four characters for every three bytes, and for one or two bytes left over. */
  lemma {:induction false} EncodeLength(b: seq<Byte>, n: nat, left: nat)
    requires |b| == 3 * n + left && left < 3
    ensures |Encode(b)| == 4 * n + if left == 0 then 0 else 4
    decreases n
  {
    if n > 0 { EncodeLength(b[3..], n - 1, left); }
  }

  lemma GroupAt(x: Byte, y: Byte, z: Byte)
    ensures Group(x, y, z) == FourOf(x, y, z, 3)
  {
    SextetsOf(x, y, z);
  }

  // ---- encoding ----

  function Flatten<T>(chunks: seq<seq<T>>): seq<T>
  {
    if chunks == [] then [] else Flatten(chunks[..|chunks| - 1]) + chunks[|chunks| - 1]
  }

  type Triple = (Byte, Byte, Byte)

  /** The bytes of a sequence of triples. */
  function Bytes(ts: seq<Triple>): seq<Byte>
  {
    if ts == [] then [] else var t := ts[|ts| - 1]; Bytes(ts[..|ts| - 1]) + [t.0, t.1, t.2]
  }

  function Groups(ts: seq<Triple>): string
  {
    if ts == [] then [] else var t := ts[|ts| - 1]; Groups(ts[..|ts| - 1]) + Group(t.0, t.1, t.2)
  }

  /** Full groups in front come out in front. */
  lemma {:induction false} EncodePrefix(ts: seq<Triple>, rest: seq<Byte>)
    ensures Encode(Bytes(ts) + rest) == Groups(ts) + Encode(rest)
    decreases |ts|
  {
    if ts == [] {
      assert Bytes(ts) + rest == rest;
    } else {
      var init, t := ts[..|ts| - 1], ts[|ts| - 1];
      var last := [t.0, t.1, t.2];
      assert Bytes(ts) + rest == Bytes(init) + (last + rest);
      EncodePrefix(init, last + rest);
      assert (last + rest)[3..] == rest;
    }
  }

  lemma Snoc(ts: seq<Triple>, t: Triple)
    ensures Bytes(ts + [t]) == Bytes(ts) + [t.0, t.1, t.2]
    ensures Groups(ts + [t]) == Groups(ts) + Group(t.0, t.1, t.2)
  {
    assert (ts + [t])[..|ts|] == ts;
  }

  /** One byte of the input: it goes into the buffer, and the third one flushes the buffer. `ts` are the
      triples flushed so far. */
  method EncodeByte(a3: array<Byte>, a4: array<Byte>, i: nat, x: Byte, ghost ts: seq<Triple>)
    returns (i': nat, out: string, ghost ts': seq<Triple>)
    requires a4.Length == 4 && a3.Length == 3 && a3 != a4 && i < 3
    modifies a3, a4
    ensures i' < 3 && Bytes(ts') + a3[..i'] == Bytes(ts) + old(a3[..i]) + [x]
    ensures Groups(ts') == Groups(ts) + out
  {
    a3[i] := x;
    i', out, ts' := i + 1, "", ts;
    assert a3[..i + 1] == old(a3[..i]) + [x];
    if i' == 3 {
      A3ToA4(a4, a3);
      out := [Symbol(a4[0]), Symbol(a4[1]), Symbol(a4[2]), Symbol(a4[3])];
      i', ts' := 0, ts + [(a3[0], a3[1], a3[2])];
      Snoc(ts, (a3[0], a3[1], a3[2]));
      assert a3[..3] == [a3[0], a3[1], a3[2]];
    }
  }

  /** The text depends on the bytes alone, not on how the stream delivers them. */
  method EncodeBase64(chunks: seq<seq<Byte>>) returns (out: string)
    ensures out == Encode(Flatten(chunks))
  {
    var a3, a4 := new Byte[3], new Byte[4];
    var i := 0;
    out := "";
    ghost var ts: seq<Triple> := [];
    for c := 0 to |chunks|
      invariant 0 <= i < 3 && Bytes(ts) + a3[..i] == Flatten(chunks[..c]) && out == Groups(ts)
    {
      for it := 0 to |chunks[c]|
        invariant 0 <= i < 3 && Bytes(ts) + a3[..i] == Flatten(chunks[..c]) + chunks[c][..it] && out == Groups(ts)
      {
        var more;
        assert chunks[c][..it + 1] == chunks[c][..it] + [chunks[c][it]];
        i, more, ts := EncodeByte(a3, a4, i, chunks[c][it], ts);
        out := out + more;
      }
      FlattenSnoc(chunks, c);
    }
    assert chunks[..|chunks|] == chunks;
    EncodePrefix(ts, a3[..i]);
    var tail := EncodeTail(a3, a4, i);
    out := out + tail;
  }

  lemma FlattenSnoc<T>(chunks: seq<seq<T>>, c: nat)
    requires c < |chunks|
    ensures Flatten(chunks[..c + 1]) == Flatten(chunks[..c]) + chunks[c]
    ensures chunks[c][..|chunks[c]|] == chunks[c]
  {
    assert chunks[..c + 1][..c] == chunks[..c];
  }

  /** After the input: pad the buffer with zeros, write i + 1 characters and fill up with `=`. */
  method EncodeTail(a3: array<Byte>, a4: array<Byte>, i0: nat) returns (out: string)
    requires a4.Length == 4 && a3.Length == 3 && a3 != a4 && i0 < 3
    modifies a3, a4
    ensures out == Tail(old(a3[..i0]))
  {
    out := "";
    var i: int := i0;
    if i != 0 {
      for j := i to 3
        invariant forall k :: 0 <= k < i ==> a3[k] == old(a3[k])
        invariant forall k :: i <= k < j ==> a3[k] == 0
      {
        a3[j] := 0;
      }
      A3ToA4(a4, a3);
      ghost var g := Group(a3[0], a3[1], a3[2]);
      for j := 0 to i + 1
        invariant out == g[..j]
      {
        out := out + [Symbol(a4[j])];
      }
      ghost var text := out;
      while i < 3
        invariant i0 <= i <= 3 && out == text + Fill(i - i0)
      {
        out := out + "=";
        i := i + 1;
      }
    }
  }

  function Fill(n: nat): string
  {
    if n == 0 then "" else Fill(n - 1) + "="
  }

  // ---- decoding ----

  function DecodeGroup(a: Char, b: Char, c: Char, d: Char): seq<Byte>
  {
    [Join0(CharValue(a), CharValue(b)), Join1(CharValue(b), CharValue(c)), Join2(CharValue(c), CharValue(d))]
  }

  const NUL: Char := 0 as char

  /** Characters left over at the end: missing ones read as NUL, and one byte fewer than characters comes out. */
  function DecodeRest(t: seq<Char>): seq<Byte>
    requires |t| < 4
  {
    if |t| <= 1 then []
    else if |t| == 2 then DecodeGroup(t[0], t[1], NUL, NUL)[..1]
    else DecodeGroup(t[0], t[1], t[2], NUL)[..2]
  }

  function DecodeText(t: seq<Char>): seq<Byte>
  {
    if |t| < 4 then DecodeRest(t) else DecodeGroup(t[0], t[1], t[2], t[3]) + DecodeText(t[4..])
  }

  /** Everything in front of the first `=`. */
  function Chop(s: seq<Char>): seq<Char>
  {
    if s == [] || s[0] == '=' then [] else [s[0]] + Chop(s[1..])
  }

  function Decode(s: seq<Char>): seq<Byte>
  {
    DecodeText(Chop(s))
  }

  /** The text up to the first `=`, or all of it. */
  lemma {:induction false} ChopMeaning(s: seq<Char>)
    ensures var n := |Chop(s)|;
            && n <= |s| && Chop(s) == s[..n] && '=' !in s[..n] && (n < |s| ==> s[n] == '=')
    decreases |s|
  {
    if s != [] && s[0] != '=' { ChopMeaning(s[1..]); }
  }

  /** The bytes that group `q` of a text decodes to, each from the values of the two characters that hold its bits. */
  lemma {:induction false} DecodeAt(s: seq<Char>, q: nat)
    ensures GroupDecodes(Chop(s), q, Decode(s))
  {
    TextAt(Chop(s), q);
  }

  predicate GroupDecodes(t: seq<Char>, q: nat, out: seq<Byte>)
  {
    var p := 4 * q;
    && (p + 1 < |t| ==> 3 * q < |out| && out[3 * q] == (CharValue(t[p]) * 4 + CharValue(t[p + 1]) / 16 % 4) % 256)
    && (p + 2 < |t| ==>
          && 3 * q + 1 < |out|
          && out[3 * q + 1] == (CharValue(t[p + 1]) % 16 * 16 + CharValue(t[p + 2]) / 4 % 16) % 256)
    && (p + 3 < |t| ==>
          3 * q + 2 < |out| && out[3 * q + 2] == (CharValue(t[p + 2]) % 4 * 64 + CharValue(t[p + 3])) % 256)
  }

  lemma {:induction false} TextAt(t: seq<Char>, q: nat)
    ensures GroupDecodes(t, q, DecodeText(t))
    decreases |t|
  {
    if |t| >= 4 && q > 0 {
      TextAt(t[4..], q - 1);
      LaterBytes(t, q, DecodeGroup(t[0], t[1], t[2], t[3]), DecodeText(t[4..]));
    } else if q == 0 {
      FirstBytes(t);
    }
  }

  lemma FirstBytes(t: seq<Char>)
    ensures GroupDecodes(t, 0, DecodeText(t))
  {
    if |t| >= 4 {
      var g, rest := DecodeGroup(t[0], t[1], t[2], t[3]), DecodeText(t[4..]);
      assert DecodeText(t) == g + rest && (g + rest)[..3] == g;
    } else if |t| == 3 {
      assert DecodeText(t) == DecodeGroup(t[0], t[1], t[2], NUL)[..2];
    } else if |t| == 2 {
      assert DecodeText(t) == DecodeGroup(t[0], t[1], NUL, NUL)[..1];
    }
  }

  lemma LaterBytes(t: seq<Char>, q: nat, front: seq<Byte>, rest: seq<Byte>)
    requires 0 < q && |t| >= 4 && |front| == 3 && GroupDecodes(t[4..], q - 1, rest)
    ensures GroupDecodes(t, q, front + rest)
  {
    var p, later := 4 * q, t[4..];
    assert forall j :: p <= j < |t| ==> t[j] == later[j - 4];
  }

  /** Four characters yield three bytes, and what is left over one byte fewer than there are characters. */
  lemma {:induction false} TextLength(t: seq<Char>)
    ensures |DecodeText(t)| == |t| / 4 * 3 + (if |t| % 4 == 0 then 0 else |t| % 4 - 1)
    decreases |t|
  {
    if |t| >= 4 { TextLength(t[4..]); }
  }

  // ---- round trips ----

  lemma {:induction false} GroupBack(x: Byte, y: Byte, z: Byte)
    ensures var g := Group(x, y, z);
            && (forall k :: 0 <= k < 4 ==> g[k] as int < 256 && g[k] != '=' && InAlphabet(g[k]))
            && DecodeGroup(g[0], g[1], g[2], g[3]) == [x, y, z]
            && Join0(CharValue(g[0]), CharValue(g[1])) == x && Join1(CharValue(g[1]), CharValue(g[2])) == y
  {
    SextetsOf(x, y, z);
    JoinBack(x, y, z);
    SymbolsBack(x / 4, x % 4 * 16 + y / 16, y % 16 * 4 + z / 64, z % 64);
  }

  lemma SymbolsBack(a: int, b: int, c: int, d: int)
    requires 0 <= a < 64 && 0 <= b < 64 && 0 <= c < 64 && 0 <= d < 64
    ensures var g := [Symbol(a), Symbol(b), Symbol(c), Symbol(d)];
            && (forall k :: 0 <= k < 4 ==> g[k] as int < 256 && g[k] != '=' && InAlphabet(g[k]))
            && CharValue(g[0]) == a && CharValue(g[1]) == b && CharValue(g[2]) == c && CharValue(g[3]) == d
  {
    LookupSymbol(a);
    LookupSymbol(b);
    LookupSymbol(c);
    LookupSymbol(d);
  }

  lemma JoinBack(x: Byte, y: Byte, z: Byte)
    ensures Join0(x / 4, x % 4 * 16 + y / 16) == x
    ensures Join1(x % 4 * 16 + y / 16, y % 16 * 4 + z / 64) == y
    ensures Join2(y % 16 * 4 + z / 64, z % 64) == z
  {
    JoinBack0(x, y);
    JoinBack1(x % 4, y, z);
    JoinBack2(y % 16, z);
  }

  lemma JoinBack0(x: Byte, y: Byte)
    ensures Join0(x / 4, x % 4 * 16 + y / 16) == x
  {
    Shift(x % 4 * 16 + y / 16, 16, x % 4, y / 16);
    assert Join0(x / 4, x % 4 * 16 + y / 16) == (x / 4 * 4 + x % 4) % 256;
  }

  lemma JoinBack1(h: int, y: Byte, z: Byte)
    requires 0 <= h < 4
    ensures Join1(h * 16 + y / 16, y % 16 * 4 + z / 64) == y
  {
    Shift(h * 16 + y / 16, 16, h, y / 16);
    Shift(y % 16 * 4 + z / 64, 4, y % 16, z / 64);
    assert Join1(h * 16 + y / 16, y % 16 * 4 + z / 64) == (y / 16 * 16 + y % 16) % 256;
  }

  lemma JoinBack2(h: int, z: Byte)
    requires 0 <= h < 16
    ensures Join2(h * 4 + z / 64, z % 64) == z
  {
    Shift(h * 4 + z / 64, 4, h, z / 64);
    assert Join2(h * 4 + z / 64, z % 64) == (z / 64 * 64 + z % 64) % 256;
  }

  predicate IsText(s: string)
  {
    forall k :: 0 <= k < |s| ==> s[k] as int < 256
  }

  lemma {:induction false} EncodeIsText(b: seq<Byte>)
    ensures IsText(Encode(b))
    decreases |b|
  {
    if |b| >= 3 {
      GroupBack(b[0], b[1], b[2]);
      EncodeIsText(b[3..]);
    } else if |b| == 2 {
      GroupBack(b[0], b[1], 0);
    } else if |b| == 1 {
      GroupBack(b[0], 0, 0);
    }
  }

  lemma {:induction false} ChopPast(pre: seq<Char>, rest: seq<Char>)
    requires '=' !in pre
    ensures Chop(pre + rest) == pre + Chop(rest)
    decreases |pre|
  {
    if pre != [] {
      assert (pre + rest)[1..] == pre[1..] + rest;
      ChopPast(pre[1..], rest);
      assert pre == [pre[0]] + pre[1..];
    } else {
      assert pre + rest == rest;
    }
  }

  lemma {:induction false} ChopFour(s: seq<Char>)
    requires |s| >= 4 && forall k :: 0 <= k < 4 ==> s[k] != '='
    ensures Chop(s) == s[..4] + Chop(s[4..])
  {
    assert s == s[..4] + s[4..];
    ChopPast(s[..4], s[4..]);
  }

  /** Decoding gives back every byte sequence. */
  lemma {:induction false} DecodeEncode(b: seq<Byte>)
    ensures IsText(Encode(b)) && Decode(Encode(b)) == b
    decreases |b|
  {
    EncodeIsText(b);
    var s: seq<Char> := Encode(b);
    if |b| >= 3 {
      DecodeEncode(b[3..]);
      GroupDecodeEncode(b);
      assert b == [b[0], b[1], b[2]] + b[3..];
    } else {
      DecodeTail(b);
    }
  }

  lemma {:induction false} GroupDecodeEncode(b: seq<Byte>)
    requires |b| >= 3
    ensures IsText(Encode(b)) && IsText(Encode(b[3..]))
    ensures Decode(Encode(b)) == [b[0], b[1], b[2]] + Decode(Encode(b[3..]))
  {
    EncodeIsText(b);
    EncodeIsText(b[3..]);
    GroupBack(b[0], b[1], b[2]);
    var s: seq<Char>, g, more: seq<Char> := Encode(b), Group(b[0], b[1], b[2]), Encode(b[3..]);
    assert s[..4] == g && s[4..] == more;
    ChopFour(s);
    assert Chop(s)[4..] == Chop(more);
  }

  lemma {:induction false} DecodeTail(b: seq<Byte>)
    requires |b| < 3
    ensures IsText(Tail(b)) && Decode(Tail(b)) == b
  {
    EncodeIsText(b);
    var s: seq<Char> := Tail(b);
    if |b| == 2 {
      GroupBack(b[0], b[1], 0);
      ChopTail(s, 3);
    } else if |b| == 1 {
      GroupBack(b[0], 0, 0);
      ChopTail(s, 2);
    }
  }

  lemma ChopTail(s: seq<Char>, n: nat)
    requires 2 <= n <= 3 && |s| > n && s[n] == '=' && forall k :: 0 <= k < n ==> s[k] != '='
    ensures Chop(s) == s[..n]
  {
    assert s[1..][1..] == s[2..] && s[2..][1..] == s[3..];
    assert Chop(s[2..]) == if n == 2 then [] else [s[2]] + Chop(s[3..]);
  }

  /** Groups of four characters of the alphabet; the last group may end in `=` or `==`, and then the bits
      it leaves unused are zero. */
  predicate Canonical(s: seq<Char>)
  {
    s == [] ||
    (|s| >= 4 && InAlphabet(s[0]) && InAlphabet(s[1]) &&
     if s[2] == '=' then |s| == 4 && s[3] == '=' && CharValue(s[1]) % 16 == 0
     else InAlphabet(s[2]) &&
          if s[3] == '=' then |s| == 4 && CharValue(s[2]) % 4 == 0
          else InAlphabet(s[3]) && Canonical(s[4..]))
  }

  lemma {:induction false} JoinForth(v: int, w: int, p: int, q: int)
    requires 0 <= v < 64 && 0 <= w < 64 && 0 <= p < 64 && 0 <= q < 64
    ensures var x, y, z := Join0(v, w), Join1(w, p), Join2(p, q);
            x / 4 == v && x % 4 * 16 + y / 16 == w && y % 16 * 4 + z / 64 == p && z % 64 == q
  {
    assert Join0(v, w) == v * 4 + w / 16;
    assert Join1(w, p) == w % 16 * 16 + p / 4;
    assert Join2(p, q) == p % 4 * 64 + q;
  }

  /** Zero bits at the end leave nothing for the last position. */
  lemma LastZero(p: int)
    requires 0 <= p < 64 && p % 4 == 0
    ensures Join2(p, 0) == 0
  {
  }

  lemma {:induction false} EncodeDecodeCanonical(s: seq<Char>)
    requires Canonical(s)
    ensures Encode(Decode(s)) == s
    decreases |s|
  {
    if s != [] {
      if s[2] == '=' {
        CanonicalTwo(s);
      } else if s[3] == '=' {
        CanonicalThree(s);
      } else {
        EncodeDecodeCanonical(s[4..]);
        CanonicalFour(s);
        assert s == s[..4] + s[4..];
      }
    }
  }

  lemma {:induction false} CanonicalTwo(s: seq<Char>)
    requires s != [] && Canonical(s) && s[2] == '='
    ensures Encode(Decode(s)) == s
  {
    ChopTail(s, 2);
    var a, b := s[0], s[1];
    var x := Join0(CharValue(a), CharValue(b));
    JoinForth(CharValue(a), CharValue(b), 0, 0);
    SextetsOf(x, 0, 0);
    assert Group(x, 0, 0)[..2] == [a, b];
    assert s == [a, b, '=', '='] && s[..2] == [a, b];
    assert DecodeRest([a, b]) == [x];
  }

  lemma {:induction false} CanonicalThree(s: seq<Char>)
    requires s != [] && Canonical(s) && s[2] != '=' && s[3] == '='
    ensures Encode(Decode(s)) == s
  {
    ChopTail(s, 3);
    var a, b, c := s[0], s[1], s[2];
    var x, y := Join0(CharValue(a), CharValue(b)), Join1(CharValue(b), CharValue(c));
    JoinForth(CharValue(a), CharValue(b), CharValue(c), 0);
    LastZero(CharValue(c));
    SextetsOf(x, y, 0);
    assert Group(x, y, 0)[..3] == [a, b, c];
    assert s == [a, b, c, '='] && s[..3] == [a, b, c];
    assert DecodeRest([a, b, c]) == [x, y];
  }

  lemma {:induction false} CanonicalFour(s: seq<Char>)
    requires |s| >= 4 && forall k :: 0 <= k < 4 ==> InAlphabet(s[k])
    ensures Encode(Decode(s)) == s[..4] + Encode(Decode(s[4..]))
  {
    ChopFour(s);
    var v, w, p, q := CharValue(s[0]), CharValue(s[1]), CharValue(s[2]), CharValue(s[3]);
    JoinForth(v, w, p, q);
    SextetsOf(Join0(v, w), Join1(w, p), Join2(p, q));
    assert Chop(s)[4..] == Chop(s[4..]);
    var g := DecodeGroup(s[0], s[1], s[2], s[3]);
    assert Decode(s) == g + Decode(s[4..]) && Decode(s)[3..] == Decode(s[4..]);
    assert s[..4] == [s[0], s[1], s[2], s[3]];
  }

  lemma {:induction false} EncodeIsCanonical(b: seq<Byte>)
    ensures IsText(Encode(b)) && Canonical(Encode(b))
    decreases |b|
  {
    EncodeIsText(b);
    if |b| >= 3 {
      var g, rest := Group(b[0], b[1], b[2]), Encode(b[3..]);
      GroupBack(b[0], b[1], b[2]);
      EncodeIsCanonical(b[3..]);
      GroupInFront(g, rest);
    } else if |b| == 2 {
      var n := Number(b[0], b[1], 0);
      SextetsOf(b[0], b[1], 0);
      LookupSymbol(Sextet(n, 0));
      LookupSymbol(Sextet(n, 1));
      LookupSymbol(Sextet(n, 2));
    } else if |b| == 1 {
      var n := Number(b[0], 0, 0);
      SextetsOf(b[0], 0, 0);
      LookupSymbol(Sextet(n, 0));
      LookupSymbol(Sextet(n, 1));
    }
  }

  lemma GroupInFront(g: seq<Char>, rest: seq<Char>)
    requires |g| == 4 && (forall k :: 0 <= k < 4 ==> g[k] != '=' && InAlphabet(g[k])) && Canonical(rest)
    ensures Canonical(g + rest)
  {
    var s := g + rest;
    assert s[4..] == rest && forall k :: 0 <= k < 4 ==> s[k] == g[k];
  }

  /** Encoding gives back a text exactly when it is canonical. */
  lemma {:induction false} EncodeDecode(s: seq<Char>)
    ensures Encode(Decode(s)) == s <==> Canonical(s)
  {
    if Canonical(s) { EncodeDecodeCanonical(s); }
    EncodeIsCanonical(Decode(s));
  }

  // ---- the decoding loop ----

  type Quad = (Char, Char, Char, Char)

  function Chars(qs: seq<Quad>): seq<Char>
  {
    if qs == [] then [] else var q := qs[|qs| - 1]; Chars(qs[..|qs| - 1]) + [q.0, q.1, q.2, q.3]
  }

  function Decoded(qs: seq<Quad>): seq<Byte>
  {
    if qs == [] then [] else var q := qs[|qs| - 1]; Decoded(qs[..|qs| - 1]) + DecodeGroup(q.0, q.1, q.2, q.3)
  }

  lemma {:induction false} DecodePrefix(qs: seq<Quad>, rest: seq<Char>)
    ensures DecodeText(Chars(qs) + rest) == Decoded(qs) + DecodeText(rest)
    decreases |qs|
  {
    if qs == [] {
      assert Chars(qs) + rest == rest;
    } else {
      var init, q := qs[..|qs| - 1], qs[|qs| - 1];
      var last := [q.0, q.1, q.2, q.3];
      assert Chars(qs) + rest == Chars(init) + (last + rest);
      DecodePrefix(init, last + rest);
      assert (last + rest)[4..] == rest;
    }
  }

  lemma QuadSnoc(qs: seq<Quad>, q: Quad)
    ensures Chars(qs + [q]) == Chars(qs) + [q.0, q.1, q.2, q.3]
    ensures Decoded(qs + [q]) == Decoded(qs) + DecodeGroup(q.0, q.1, q.2, q.3)
  {
    assert (qs + [q])[..|qs|] == qs;
  }

  /** `=` ends the text; without one, all of it counts. */
  lemma ChopAt(pre: seq<Char>, rest: seq<Char>)
    requires '=' !in pre && (rest == [] || rest[0] == '=')
    ensures Chop(pre + rest) == pre
  {
    ChopPast(pre, rest);
  }

  /** The characters that wait in the buffer, as codes. */
  ghost predicate Codes(a4: seq<Byte>, left: seq<Char>)
  {
    |left| <= |a4| && forall k :: 0 <= k < |left| ==> a4[k] == left[k] as int
  }

  /** The four codes in the buffer are looked up in place and joined to three bytes. */
  method JoinBuffer(a3: array<Byte>, a4: array<Byte>, ghost q: Quad)
    requires a4.Length == 4 && a3.Length == 3 && a3 != a4 && Codes(a4[..], [q.0, q.1, q.2, q.3])
    modifies a3, a4
    ensures a3[..] == DecodeGroup(q.0, q.1, q.2, q.3)
  {
    ghost var s := [q.0, q.1, q.2, q.3];
    assert forall k :: 0 <= k < 4 ==> a4[k] == s[k] as int;
    for i := 0 to 4
      invariant forall k :: 0 <= k < i ==> a4[k] == CharValue(s[k])
      invariant forall k :: i <= k < 4 ==> a4[k] == s[k] as int
    {
      a4[i] := Lookup(a4[i]);
    }
    assert s[0] == q.0 && s[1] == q.1 && s[2] == q.2 && s[3] == q.3;
    A4ToA3(a3, a4);
  }

  /** One character that is not `=`. */
  method DecodeChar(a3: array<Byte>, a4: array<Byte>, i: nat, c: Char, ghost left: seq<Char>, ghost qs: seq<Quad>)
    returns (i': nat, out: seq<Byte>, ghost left': seq<Char>, ghost qs': seq<Quad>)
    requires a4.Length == 4 && a3.Length == 3 && a3 != a4 && i == |left| < 4 && Codes(a4[..], left)
    modifies a3, a4
    ensures i' == |left'| < 4 && Codes(a4[..], left')
    ensures Chars(qs') + left' == Chars(qs) + left + [c] && Decoded(qs') == Decoded(qs) + out
  {
    a4[i] := c as int;
    i', out, left', qs' := i + 1, [], left + [c], qs;
    if i' == 4 {
      ghost var q := (left'[0], left'[1], left'[2], left'[3]);
      assert left' == [q.0, q.1, q.2, q.3];
      JoinBuffer(a3, a4, q);
      out := a3[..];
      QuadSnoc(qs, q);
      i', left', qs' := 0, [], qs + [q];
    }
  }

  /** What the decoder has done with the text `pre`: full groups are written, the rest waits in the buffer. */
  ghost predicate Reading(pre: seq<Char>, qs: seq<Quad>, left: seq<Char>, i: nat, out: seq<Byte>)
  {
    pre == Chars(qs) + left && '=' !in pre && out == Decoded(qs) && i == |left| < 4
  }

  /** One chunk, up to its end or the first `=`. */
  method DecodeChunk(a3: array<Byte>, a4: array<Byte>, i0: nat, chunk: seq<Char>, out0: seq<Byte>,
                     ghost pre: seq<Char>, ghost qs0: seq<Quad>, ghost left0: seq<Char>)
    returns (i: nat, out: seq<Byte>, stop: bool, ghost it: nat, ghost qs: seq<Quad>, ghost left: seq<Char>)
    requires a4.Length == 4 && a3.Length == 3 && a3 != a4 && Codes(a4[..], left0) && Reading(pre, qs0, left0, i0, out0)
    modifies a3, a4
    ensures it <= |chunk| && Codes(a4[..], left) && Reading(pre + chunk[..it], qs, left, i, out)
    ensures if stop then it < |chunk| && chunk[it] == '=' else it == |chunk|
  {
    i, out, stop, qs, left := i0, out0, false, qs0, left0;
    var at := 0;
    assert pre + chunk[..0] == pre;
    while at < |chunk| && !stop
      invariant 0 <= at <= |chunk| && Codes(a4[..], left) && Reading(pre + chunk[..at], qs, left, i, out)
      invariant stop ==> at < |chunk| && chunk[at] == '='
      decreases |chunk| - at, !stop
    {
      if chunk[at] == '=' {
        stop := true;
      } else {
        var more;
        assert pre + chunk[..at + 1] == pre + chunk[..at] + [chunk[at]];
        i, more, left, qs := DecodeChar(a3, a4, i, chunk[at], left, qs);
        out := out + more;
        at := at + 1;
      }
    }
    it := at;
  }

  /** The bytes depend on the text alone, not on how the stream delivers it. */
  method DecodeBase64(chunks: seq<seq<Char>>) returns (out: seq<Byte>)
    ensures out == Decode(Flatten(chunks))
  {
    var a3, a4 := new Byte[3], new Byte[4];
    var i, stop := 0, false;
    out := [];
    ghost var qs: seq<Quad>, left: seq<Char>, pre: seq<Char> := [], [], [];
    var c := 0;
    while c < |chunks| && !stop
      invariant 0 <= c <= |chunks| && Codes(a4[..], left) && Reading(pre, qs, left, i, out)
      invariant !stop ==> pre == Flatten(chunks[..c])
      invariant stop ==> Chop(Flatten(chunks)) == pre
    {
      ghost var it;
      i, out, stop, it, qs, left := DecodeChunk(a3, a4, i, chunks[c], out, pre, qs, left);
      pre := pre + chunks[c][..it];
      if stop {
        StopHere(chunks, c, it, pre);
      }
      FlattenSnoc(chunks, c);
      c := c + 1;
    }
    if !stop {
      assert chunks[..|chunks|] == chunks;
      ChopAt(pre, []);
      assert pre + [] == pre;
    }
    DecodePrefix(qs, left);
    var rest := DecodeLeft(a3, a4, i, left);
    out := out + rest;
  }

  lemma StopHere(chunks: seq<seq<Char>>, c: nat, it: nat, pre: seq<Char>)
    requires c < |chunks| && it < |chunks[c]| && chunks[c][it] == '='
    requires pre == Flatten(chunks[..c]) + chunks[c][..it] && '=' !in pre
    ensures Chop(Flatten(chunks)) == pre
  {
    FlattenSplit(chunks, c + 1);
    FlattenSnoc(chunks, c);
    var rest := chunks[c][it..] + Flatten(chunks[c + 1..]);
    assert chunks[c] == chunks[c][..it] + chunks[c][it..];
    assert Flatten(chunks) == pre + rest;
    ChopAt(pre, rest);
  }

  lemma {:induction false} FlattenSplit<T>(chunks: seq<seq<T>>, k: nat)
    requires k <= |chunks|
    ensures Flatten(chunks) == Flatten(chunks[..k]) + Flatten(chunks[k..])
    decreases |chunks|
  {
    if k == |chunks| {
      assert chunks[..k] == chunks;
    } else {
      var init := chunks[..|chunks| - 1];
      FlattenSplit(init, k);
      assert init[..k] == chunks[..k] && init[k..] == chunks[k..][..|chunks[k..]| - 1];
    }
  }

  /** After the input: pad with NUL, and write one byte fewer than there were characters. */
  method DecodeLeft(a3: array<Byte>, a4: array<Byte>, i: nat, ghost left: seq<Char>) returns (out: seq<Byte>)
    requires a4.Length == 4 && a3.Length == 3 && a3 != a4 && i == |left| < 4 && Codes(a4[..], left)
    modifies a3, a4
    ensures out == DecodeText(left)
  {
    out := [];
    if i != 0 {
      for j := i to 4
        invariant Codes(a4[..], left) && forall k :: i <= k < j ==> a4[k] == 0
      {
        a4[j] := 0;
      }
      ghost var q := (left[0], if i > 1 then left[1] else NUL, if i > 2 then left[2] else NUL, NUL);
      JoinBuffer(a3, a4, q);
      for j := 0 to i - 1
        invariant out == a3[..j]
      {
        out := out + [a3[j]];
      }
    }
  }
}
