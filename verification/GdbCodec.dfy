/** Escaping and run-length encoding of remote debugging packets, and their inverses. */
module GdbCodec {
  import Bits
  import opened Bytes

  const STAR: byte := 42     // '*'
  const HASH: byte := 35     // '#'
  const DOLLAR: byte := 36   // '$'
  const BRACE: byte := 125   // '}'

  // ----- escaping -----

  predicate Special(b: byte) {
    b == STAR || b == HASH || b == DOLLAR || b == BRACE
  }

  /** Exclusive or with 0x20: the sixth bit changes. */
  function Flip(b: byte): (r: byte)
    ensures r == (b as bv8 ^ 0x20) as int
  {
    if (b / 0x20) % 2 == 1 then b - 0x20 else b + 0x20
  }

  function Escape(d: seq<byte>): seq<byte> {
    if d == [] then []
    else (if Special(d[0]) then [BRACE, Flip(d[0])] else [d[0]]) + Escape(d[1..])
  }

  /** A brace and the byte after it, whatever it is, stand for one byte; a last brace stands for itself. */
  function Unescape(e: seq<byte>): seq<byte> {
    if e == [] then []
    else if e[0] == BRACE && |e| >= 2 then [Flip(e[1])] + Unescape(e[2..])
    else [e[0]] + Unescape(e[1..])
  }

  lemma {:induction false} UnescapeEscape(d: seq<byte>)
    ensures Unescape(Escape(d)) == d
  {
    if d != [] {
      UnescapeEscape(d[1..]);
      var rest := Escape(d[1..]);
      if Special(d[0]) {
        assert Escape(d) == [BRACE, Flip(d[0])] + rest;
        assert Escape(d)[2..] == rest;
        assert Flip(Flip(d[0])) == d[0];
      } else {
        assert Escape(d) == [d[0]] + rest;
        assert Escape(d)[1..] == rest;
      }
    }
  }

  /** Every byte is escaped on its own. */
  lemma {:induction false} EscapeConcat(x: seq<byte>, y: seq<byte>)
    ensures Escape(x + y) == Escape(x) + Escape(y)
  {
    if x == [] {
      assert x + y == y;
    } else {
      assert (x + y)[1..] == x[1..] + y;
      EscapeConcat(x[1..], y);
    }
  }

  /** Stars, hashes, dollars and closing braces become a brace and another byte; other bytes stay. */
  lemma EscapeByte(b: byte)
    ensures Escape([42]) == [125, 10] && Escape([35]) == [125, 3] && Escape([36]) == [125, 4]
    ensures Escape([125]) == [125, 93]
    ensures b != 42 && b != 35 && b != 36 && b != 125 ==> Escape([b]) == [b]
  {
    var none: seq<byte> := [b][1..];
    assert none == [] && Escape(none) == [];
  }

  /** A brace and a byte stand for that byte with its sixth bit changed; any other byte for itself. */
  lemma UnescapeFront(b: byte, rest: seq<byte>)
    ensures Unescape([125, b] + rest) == [(b as bv8 ^ 0x20) as int] + Unescape(rest)
    ensures b != 125 || rest == [] ==> Unescape([b] + rest) == [b] + Unescape(rest)
  {
    assert ([125, b] + rest)[2..] == rest && ([b] + rest)[1..] == rest;
  }

  predicate Lacks(s: seq<byte>, b: byte) {
    forall i :: 0 <= i < |s| ==> s[i] != b
  }

  /** Escaped data is free of the bytes that structure a packet. */
  lemma {:induction false} EscapeIsClean(d: seq<byte>)
    ensures Lacks(Escape(d), STAR) && Lacks(Escape(d), HASH) && Lacks(Escape(d), DOLLAR)
  {
    if d != [] {
      EscapeIsClean(d[1..]);
    }
  }

  // ----- run-length encoding -----

  function Rep(b: byte, n: int): (r: seq<byte>)
    ensures |r| == if n <= 0 then 0 else n
    ensures forall i :: 0 <= i < |r| ==> r[i] == b
  {
    if n <= 0 then [] else seq(n, _ => b)
  }

  /** Length of the run of equal bytes at the front, as far as one match reaches. */
  function Run(s: seq<byte>, cap: nat): (n: nat)
    requires s != [] && cap > 0
    ensures 1 <= n <= cap && n <= |s|
    ensures s[..n] == Rep(s[0], n)
  {
    if cap == 1 || |s| == 1 || s[1] != s[0] then 1
    else
      var n := Run(s[1..], cap - 1);
      assert s[..n + 1] == [s[0]] + s[1..][..n];
      n + 1
  }

  function RunlenRep(b: byte, times: nat): seq<byte>
    requires 1 <= times <= 97
  {
    [b, STAR, times - 1 + 29]
  }

  function EncodeRep(b: byte, times: nat): seq<byte>
    requires 1 <= times <= 97
  {
    if times < 4 then Rep(b, times)
    else if times == 7 || times == 8 then RunlenRep(b, 6) + EncodeRep(b, times - 6)
    else RunlenRep(b, times)
  }

  /** Runs of 4 to 97 equal bytes are replaced, from the left, the longest first. */
  function RleEncode(s: seq<byte>): seq<byte> {
    if s == [] then []
    else
      var n := Run(s, 97);
      if n >= 4 then EncodeRep(s[0], n) + RleEncode(s[n..]) else [s[0]] + RleEncode(s[1..])
  }

  function RleDecode(e: seq<byte>): seq<byte> {
    if e == [] then []
    else if |e| >= 3 && e[1] == STAR then
      var times: int := e[2];
      Rep(e[0], 1 + times - 29) + RleDecode(e[3..])
    else [e[0]] + RleDecode(e[1..])
  }

  /** A byte, a star and a count byte stand for 28 copies less than the count byte says. */
  lemma DecodeTriple(b: byte, n: byte, rest: seq<byte>)
    ensures RleDecode([b, 42, n] + rest) == Rep(b, n - 28) + RleDecode(rest)
  {
    var e := [b, STAR, n] + rest;
    assert e[3..] == rest;
  }

  /** A byte that no star follows, or a star at the very end, stands for itself. */
  lemma DecodeByte(b: byte, rest: seq<byte>)
    requires |rest| < 2 || rest[0] != 42
    ensures RleDecode([b] + rest) == [b] + RleDecode(rest)
  {
    assert ([b] + rest)[1..] == rest;
  }

  /** n copies of a byte, then another byte, or any byte if there are as many copies as one match reaches. */
  predicate FrontRun(b: byte, n: nat, rest: seq<byte>) {
    1 <= n <= 97 && (n == 97 || rest == [] || rest[0] != b)
  }

  lemma {:induction false} RunIsFront(b: byte, n: nat, rest: seq<byte>, cap: nat)
    requires 1 <= n <= cap && (n == cap || rest == [] || rest[0] != b)
    ensures Run(Rep(b, n) + rest, cap) == n
  {
    var s := Rep(b, n) + rest;
    if n > 1 {
      assert s[1] == s[0] == b && s[1..] == Rep(b, n - 1) + rest;
      RunIsFront(b, n - 1, rest, cap - 1);
    } else if |s| > 1 {
      assert s[1] == rest[0];
    }
  }

  lemma EncodeLongRun(b: byte, n: nat, rest: seq<byte>)
    requires FrontRun(b, n, rest) && n >= 4
    ensures RleEncode(Rep(b, n) + rest) == EncodeRep(b, n) + RleEncode(rest)
  {
    var s := Rep(b, n) + rest;
    RunIsFront(b, n, rest, 97);
    assert s[n..] == rest && s[0] == b;
  }

  lemma EncodeShortRun(b: byte, n: nat, rest: seq<byte>)
    requires FrontRun(b, n, rest) && n < 4
    ensures RleEncode(Rep(b, n) + rest) == [b] + RleEncode(Rep(b, n - 1) + rest)
  {
    var s := Rep(b, n) + rest;
    RunIsFront(b, n, rest, 97);
    assert s[1..] == Rep(b, n - 1) + rest && s[0] == b;
  }

  lemma RepCons(b: byte, n: nat, rest: seq<byte>)
    requires n > 0
    ensures [b] + (Rep(b, n - 1) + rest) == Rep(b, n) + rest
  {
    assert [b] + Rep(b, n - 1) == Rep(b, n);
  }

  lemma {:induction false} ShortRunCopied(b: byte, n: nat, rest: seq<byte>)
    requires FrontRun(b, n, rest) && n < 4
    ensures RleEncode(Rep(b, n) + rest) == Rep(b, n) + RleEncode(rest)
  {
    EncodeShortRun(b, n, rest);
    RepCons(b, n, RleEncode(rest));
    if n > 1 {
      ShortRunCopied(b, n - 1, rest);
    } else {
      assert Rep(b, 0) + rest == rest && Rep(b, 0) + RleEncode(rest) == RleEncode(rest);
    }
  }

  /** What a run is replaced by: up to three bytes stay, seven and eight are split, others become three bytes. */
  lemma RleEncodeRun(b: byte, n: nat, rest: seq<byte>)
    requires FrontRun(b, n, rest)
    ensures RleEncode(Rep(b, n) + rest) ==
            (if n < 4 then Rep(b, n)
             else if n == 7 then [b, 42, 34, b]
             else if n == 8 then [b, 42, 34, b, b]
             else [b, 42, n + 28]) + RleEncode(rest)
  {
    if n >= 4 {
      EncodeLongRun(b, n, rest);
      ShortRuns(b, n);
    } else {
      ShortRunCopied(b, n, rest);
    }
  }

  lemma ShortRuns(b: byte, n: nat)
    requires 4 <= n <= 97
    ensures EncodeRep(b, n) ==
            if n == 7 then [b, 42, 34, b] else if n == 8 then [b, 42, 34, b, b] else [b, 42, n + 28]
  {
    assert Rep(b, 1) == [b] && Rep(b, 2) == [b, b];
  }

  lemma DecodeOne(b: byte, rest: seq<byte>)
    requires rest == [] || rest[0] != STAR
    ensures RleDecode([b] + rest) == [b] + RleDecode(rest)
  {
    assert ([b] + rest)[1..] == rest;
  }

  /** A few equal bytes in front of anything but a star are copied. */
  lemma {:induction false} DecodeCopies(b: byte, n: nat, rest: seq<byte>)
    requires b != STAR && (rest == [] || rest[0] != STAR)
    ensures RleDecode(Rep(b, n) + rest) == Rep(b, n) + RleDecode(rest)
  {
    if n == 0 {
      assert Rep(b, n) + rest == rest;
    } else {
      var fewer := Rep(b, n - 1);
      assert Rep(b, n) == [b] + fewer;
      Assoc([b], fewer, rest);
      DecodeOne(b, fewer + rest);
      DecodeCopies(b, n - 1, rest);
      Assoc([b], fewer, RleDecode(rest));
    }
  }

  lemma Assoc<T>(a: seq<T>, b: seq<T>, c: seq<T>)
    ensures a + b + c == a + (b + c)
  {
  }

  lemma DecodeSplitRun(b: byte, k: nat, rest: seq<byte>)
    requires b != STAR && (rest == [] || rest[0] != STAR)
    ensures RleDecode(RunlenRep(b, 6) + Rep(b, k) + rest) == Rep(b, 6 + k) + RleDecode(rest)
  {
    Assoc(RunlenRep(b, 6), Rep(b, k), rest);
    DecodeTriple(b, 34, Rep(b, k) + rest);
    DecodeCopies(b, k, rest);
  }

  lemma DecodeRep(b: byte, times: nat, rest: seq<byte>)
    requires b != STAR && 1 <= times <= 97 && (rest == [] || rest[0] != STAR)
    ensures RleDecode(EncodeRep(b, times) + rest) == Rep(b, times) + RleDecode(rest)
  {
    if times < 4 {
      DecodeCopies(b, times, rest);
    } else if times == 7 || times == 8 {
      assert EncodeRep(b, times) == RunlenRep(b, 6) + Rep(b, times - 6);
      DecodeSplitRun(b, times - 6, rest);
    } else {
      DecodeTriple(b, times + 28, rest);
    }
  }

  /** Encoding starts with the byte it encodes first. */
  lemma RleEncodeHead(s: seq<byte>)
    requires s != []
    ensures RleEncode(s) != [] && RleEncode(s)[0] == s[0]
  {
  }

  lemma EncodeStep(s: seq<byte>) returns (n: nat)
    requires s != [] && Lacks(s, STAR)
    ensures 1 <= n <= 97 && n <= |s| && Lacks(s[n..], STAR)
    ensures s == Rep(s[0], n) + s[n..]
    ensures RleEncode(s) == EncodeRep(s[0], n) + RleEncode(s[n..])
  {
    var run := Run(s, 97);
    n := if run >= 4 then run else 1;
    assert s == s[..n] + s[n..];
    assert n == 1 ==> s[..1] == [s[0]] && Rep(s[0], 1) == [s[0]];
  }

  /** Run-length decoding undoes encoding for all data without a literal star. */
  lemma {:induction false} RleDecodeEncode(s: seq<byte>)
    requires Lacks(s, STAR)
    ensures RleDecode(RleEncode(s)) == s
    decreases |s|
  {
    if s != [] {
      var n := EncodeStep(s);
      RleDecodeEncode(s[n..]);
      if s[n..] != [] { RleEncodeHead(s[n..]); }
      DecodeRep(s[0], n, RleEncode(s[n..]));
    }
  }

  /** Data nobody run-length encoded passes the decoder unchanged. */
  lemma {:induction false} RleDecodePlain(s: seq<byte>)
    requires Lacks(s, STAR)
    ensures RleDecode(s) == s
  {
    if s != [] {
      RleDecodePlain(s[1..]);
      assert s == [s[0]] + s[1..];
    }
  }

  function Encode(d: seq<byte>): seq<byte> {
    RleEncode(Escape(d))
  }

  function Decode(e: seq<byte>): seq<byte> {
    Unescape(RleDecode(e))
  }

  /** Decoding undoes encoding, for every byte string. */
  lemma DecodeEncode(d: seq<byte>)
    ensures Decode(Encode(d)) == d
  {
    EscapeIsClean(d);
    RleDecodeEncode(Escape(d));
    UnescapeEscape(d);
  }

  /** ... and so it does for a peer that escapes but does not run-length encode. */
  lemma DecodeEscape(d: seq<byte>)
    ensures Decode(Escape(d)) == d
  {
    EscapeIsClean(d);
    RleDecodePlain(Escape(d));
    UnescapeEscape(d);
  }

  // ----- what framing relies on -----

  predicate Structural(b: byte) {
    b == HASH || b == DOLLAR
  }

  predicate Unstructured(s: seq<byte>) {
    forall i :: 0 <= i < |s| ==> !Structural(s[i])
  }

  /** A count byte is one of the structuring bytes exactly for the two lengths treated apart. */
  lemma CountByteExact(times: nat)
    requires 4 <= times <= 97
    ensures Structural(RunlenRep(0, times)[2]) <==> times == 7 || times == 8
    ensures Unstructured(EncodeRep(0, times))
  {
  }

  lemma EncodeRepUnstructured(b: byte, times: nat)
    requires 1 <= times <= 97 && !Structural(b)
    ensures Unstructured(EncodeRep(b, times)) && |EncodeRep(b, times)| <= times
  {
  }

  /** Encoded data never holds a packet delimiter and is never longer than what it encodes. */
  lemma {:induction false} RleEncodeUnstructured(s: seq<byte>)
    requires Unstructured(s)
    ensures Unstructured(RleEncode(s)) && |RleEncode(s)| <= |s|
    decreases |s|
  {
    if s != [] {
      var n := Run(s, 97);
      var k := if n >= 4 then n else 1;
      RleEncodeUnstructured(s[k..]);
      EncodeRepUnstructured(s[0], n);
    }
  }

  lemma EncodeUnstructured(d: seq<byte>)
    ensures Unstructured(Encode(d)) && |Encode(d)| <= |Escape(d)|
  {
    EscapeIsClean(d);
    RleEncodeUnstructured(Escape(d));
  }

  function Sum(s: seq<byte>): nat {
    if s == [] then 0 else s[0] + Sum(s[1..])
  }

  lemma {:induction false} SumConcat(a: seq<byte>, b: seq<byte>)
    ensures Sum(a + b) == Sum(a) + Sum(b)
    ensures |a| == 1 ==> Sum(a) == a[0]
  {
    if a == [] {
      assert a + b == b;
    } else {
      SumConcat(a[1..], b);
      assert (a + b)[1..] == a[1..] + b;
    }
  }

  function Checksum(s: seq<byte>): (c: int)
    ensures c == Sum(s) % 256
  {
    assert Bits.Pow2(8) == 0x100;
    Bits.AndMask(Sum(s), 8);
    Bits.And(Sum(s), 0xff)
  }
}
