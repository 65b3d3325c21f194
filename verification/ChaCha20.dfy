/** ChaCha20 of RFC 8439, sections 2.1 to 2.4, and the authenticated cipher of section 2.8. */
module ChaCha20 {
  import opened Bits
  import opened Bytes
  import opened Word32
  import opened Aead
  import Poly1305

  // ---------- the quarter round, section 2.1, and its inverse

  datatype Quad = Quad(a: bv32, b: bv32, c: bv32, d: bv32)

  /** `x += y; z ^= x; z <<<= n` */
  function Mix(x: bv32, y: bv32, z: bv32, n: bv32): (bv32, bv32)
    requires n <= 32
  {
    var sum := Add32(x, y);
    (sum, Rotl(Xor32(z, sum), n))
  }

  function Unmix(sum: bv32, y: bv32, r: bv32, n: bv32): (bv32, bv32)
    requires n <= 32
  {
    (Sub32(sum, y), Xor32(Rotl(r, 32 - n), sum))
  }

  function Quarter(q: Quad): Quad {
    var (a, d) := Mix(q.a, q.b, q.d, 16);
    var (c, b) := Mix(q.c, d, q.b, 12);
    var (a', d') := Mix(a, b, d, 8);
    var (c', b') := Mix(c, d', b, 7);
    Quad(a', b', c', d')
  }

  function Unquarter(q: Quad): Quad {
    var (c, b) := Unmix(q.c, q.d, q.b, 7);
    var (a, d) := Unmix(q.a, b, q.d, 8);
    var (c', b') := Unmix(c, d, b, 12);
    var (a', d') := Unmix(a, b', d, 16);
    Quad(a', b', c', d')
  }

  lemma AddSub(x: bv32, y: bv32)
    ensures Sub32(Add32(x, y), y) == x && Add32(Sub32(x, y), y) == x
    ensures Xor32(Xor32(x, y), y) == x
  {
    assert Sub32(x + y, y) == x && Add32(x - y, y) == x && Xor32(x ^ y, y) == x;
    assert Add32(x, y) == x + y && Sub32(x, y) == x - y && Xor32(x, y) == x ^ y;
    hide *;
  }

  lemma MixBack(x: bv32, y: bv32, z: bv32, n: bv32)
    requires n <= 32
    ensures Unmix(Mix(x, y, z, n).0, y, Mix(x, y, z, n).1, n) == (x, z)
    ensures Mix(Unmix(x, y, z, n).0, y, Unmix(x, y, z, n).1, n) == (x, z)
  {
    assert 32 - (32 - n) == n;
    hide Add32, Sub32, Xor32, Rotl;
    AddSub(x, y);
    var sum := Add32(x, y);
    AddSub(z, sum);
    RotlBack(Xor32(z, sum), n);
    RotlBack(z, 32 - n);
    AddSub(Rotl(z, 32 - n), x);
  }

  lemma QuarterBack(q: Quad)
    ensures Unquarter(Quarter(q)) == q && Quarter(Unquarter(q)) == q
  {
    hide Mix, Unmix;
    var (a, d) := Mix(q.a, q.b, q.d, 16);
    var (c, b) := Mix(q.c, d, q.b, 12);
    var (a', d') := Mix(a, b, d, 8);
    MixBack(q.a, q.b, q.d, 16);
    MixBack(q.c, d, q.b, 12);
    MixBack(a, b, d, 8);
    MixBack(c, d', b, 7);
    UnquarterBack(q);
  }

  lemma UnquarterBack(q: Quad)
    ensures Quarter(Unquarter(q)) == q
  {
    hide Mix, Unmix;
    var (c, b) := Unmix(q.c, q.d, q.b, 7);
    var (a, d) := Unmix(q.a, b, q.d, 8);
    var (c', b') := Unmix(c, d, b, 12);
    MixBack(q.c, q.d, q.b, 7);
    MixBack(q.a, b, q.d, 8);
    MixBack(c, d, b, 12);
    MixBack(a, b', d, 16);
  }

  // ---------- what the quarter round means, bit by bit

  /** Every bit of r is the sum of a bit of z and a bit of sum, n places to the left of them. */
  ghost predicate Turned(z: bv32, sum: bv32, r: bv32, n: bv32)
    requires n < 32
  {
    forall i: bv32 | i < 32 :: Bit(r, (i + n) & 31) == (Bit(z, i) != Bit(sum, i))
  }

  /** The four steps of section 2.1, with the words d and b of the first half. */
  ghost predicate Steps(q: Quad, d: bv32, b: bv32, r: Quad) {
    var a := Add32(q.a, q.b);
    var c := Add32(q.c, d);
    && Turned(q.d, a, d, 16)
    && Turned(q.b, c, b, 12)
    && r.a == Add32(a, b) && Turned(d, r.a, r.d, 8)
    && r.c == Add32(c, r.d) && Turned(b, r.c, r.b, 7)
  }

  lemma TurnedBy(z: bv32, sum: bv32, n: bv32)
    requires 0 < n < 32
    ensures Turned(z, sum, Rotl(Xor32(z, sum), n), n)
  {
    hide Bit, Rotl, Xor32;
    forall i: bv32 | i < 32 ensures Bit(Rotl(Xor32(z, sum), n), (i + n) & 31) == (Bit(z, i) != Bit(sum, i)) {
      TurnedBit(z, sum, n, i);
    }
  }

  lemma TurnedBit(z: bv32, sum: bv32, n: bv32, i: bv32)
    requires i < 32 && 0 < n < 32
    ensures Bit(Rotl(Xor32(z, sum), n), (i + n) & 31) == (Bit(z, i) != Bit(sum, i))
  {
    hide *;
    BitOfRotl(Xor32(z, sum), n, i);
    BitOfXor(z, sum, i);
  }

  /** The quarter round makes the four steps, whose results are determined bit by bit. */
  lemma QuarterSteps(q: Quad) returns (d: bv32, b: bv32)
    ensures Steps(q, d, b, Quarter(q))
  {
    hide Turned, Rotl, Xor32, Add32;
    var r := Quarter(q);
    var a := Add32(q.a, q.b);
    d := Rotl(Xor32(q.d, a), 16);
    TurnedBy(q.d, a, 16);
    var c := Add32(q.c, d);
    b := Rotl(Xor32(q.b, c), 12);
    TurnedBy(q.b, c, 12);
    TurnedBy(d, r.a, 8);
    TurnedBy(b, r.c, 7);
  }

  // ---------- rounds on the sixteen words, sections 2.2 and 2.3.1

  predicate State(s: seq<bv32>) {
    |s| == 16
  }

  predicate Places(a: nat, b: nat, c: nat, d: nat) {
    a < 16 && b < 16 && c < 16 && d < 16 && a != b && a != c && a != d && b != c && b != d && c != d
  }

  function Put(s: seq<bv32>, a: nat, b: nat, c: nat, d: nat, q: Quad): (t: seq<bv32>)
    requires State(s) && Places(a, b, c, d)
    ensures State(t)
  {
    s[a := q.a][b := q.b][c := q.c][d := q.d]
  }

  function Get(s: seq<bv32>, a: nat, b: nat, c: nat, d: nat): Quad
    requires State(s) && Places(a, b, c, d)
  {
    Quad(s[a], s[b], s[c], s[d])
  }

  /** QUARTERROUND(a, b, c, d) on the state. */
  function QuarterAt(s: seq<bv32>, a: nat, b: nat, c: nat, d: nat): (t: seq<bv32>)
    requires State(s) && Places(a, b, c, d)
    ensures State(t)
  {
    Put(s, a, b, c, d, Quarter(Get(s, a, b, c, d)))
  }

  function UnquarterAt(s: seq<bv32>, a: nat, b: nat, c: nat, d: nat): (t: seq<bv32>)
    requires State(s) && Places(a, b, c, d)
    ensures State(t)
  {
    Put(s, a, b, c, d, Unquarter(Get(s, a, b, c, d)))
  }

  lemma QuarterAtBack(s: seq<bv32>, a: nat, b: nat, c: nat, d: nat)
    requires State(s) && Places(a, b, c, d)
    ensures UnquarterAt(QuarterAt(s, a, b, c, d), a, b, c, d) == s
    ensures QuarterAt(UnquarterAt(s, a, b, c, d), a, b, c, d) == s
  {
    hide Quarter, Unquarter;
    QuarterBack(Get(s, a, b, c, d));
  }

  function ColumnRound(s: seq<bv32>): (t: seq<bv32>)
    requires State(s)
    ensures State(t)
  {
    QuarterAt(QuarterAt(QuarterAt(QuarterAt(s, 0, 4, 8, 12), 1, 5, 9, 13), 2, 6, 10, 14), 3, 7, 11, 15)
  }

  function DiagonalRound(s: seq<bv32>): (t: seq<bv32>)
    requires State(s)
    ensures State(t)
  {
    QuarterAt(QuarterAt(QuarterAt(QuarterAt(s, 0, 5, 10, 15), 1, 6, 11, 12), 2, 7, 8, 13), 3, 4, 9, 14)
  }

  function UncolumnRound(s: seq<bv32>): (t: seq<bv32>)
    requires State(s)
    ensures State(t)
  {
    UnquarterAt(UnquarterAt(UnquarterAt(UnquarterAt(s, 3, 7, 11, 15), 2, 6, 10, 14), 1, 5, 9, 13), 0, 4, 8, 12)
  }

  function UndiagonalRound(s: seq<bv32>): (t: seq<bv32>)
    requires State(s)
    ensures State(t)
  {
    UnquarterAt(UnquarterAt(UnquarterAt(UnquarterAt(s, 3, 4, 9, 14), 2, 7, 8, 13), 1, 6, 11, 12), 0, 5, 10, 15)
  }

  lemma ColumnRoundBack(s: seq<bv32>)
    requires State(s)
    ensures UncolumnRound(ColumnRound(s)) == s && ColumnRound(UncolumnRound(s)) == s
  {
    hide QuarterAt, UnquarterAt;
    var t := QuarterAt(s, 0, 4, 8, 12);
    QuarterAtBack(s, 0, 4, 8, 12);
    QuarterAtBack(t, 1, 5, 9, 13);
    QuarterAtBack(QuarterAt(t, 1, 5, 9, 13), 2, 6, 10, 14);
    QuarterAtBack(QuarterAt(QuarterAt(t, 1, 5, 9, 13), 2, 6, 10, 14), 3, 7, 11, 15);
    t := UnquarterAt(s, 3, 7, 11, 15);
    QuarterAtBack(s, 3, 7, 11, 15);
    QuarterAtBack(t, 2, 6, 10, 14);
    QuarterAtBack(UnquarterAt(t, 2, 6, 10, 14), 1, 5, 9, 13);
    QuarterAtBack(UnquarterAt(UnquarterAt(t, 2, 6, 10, 14), 1, 5, 9, 13), 0, 4, 8, 12);
  }

  lemma DiagonalRoundBack(s: seq<bv32>)
    requires State(s)
    ensures UndiagonalRound(DiagonalRound(s)) == s && DiagonalRound(UndiagonalRound(s)) == s
  {
    hide QuarterAt, UnquarterAt;
    var t := QuarterAt(s, 0, 5, 10, 15);
    QuarterAtBack(s, 0, 5, 10, 15);
    QuarterAtBack(t, 1, 6, 11, 12);
    QuarterAtBack(QuarterAt(t, 1, 6, 11, 12), 2, 7, 8, 13);
    QuarterAtBack(QuarterAt(QuarterAt(t, 1, 6, 11, 12), 2, 7, 8, 13), 3, 4, 9, 14);
    t := UnquarterAt(s, 3, 4, 9, 14);
    QuarterAtBack(s, 3, 4, 9, 14);
    QuarterAtBack(t, 2, 7, 8, 13);
    QuarterAtBack(UnquarterAt(t, 2, 7, 8, 13), 1, 6, 11, 12);
    QuarterAtBack(UnquarterAt(UnquarterAt(t, 2, 7, 8, 13), 1, 6, 11, 12), 0, 5, 10, 15);
  }

  /** n double rounds. */
  function Rounds(s: seq<bv32>, n: nat): (t: seq<bv32>)
    requires State(s)
    ensures State(t)
  {
    if n == 0 then s else DiagonalRound(ColumnRound(Rounds(s, n - 1)))
  }

  function Unrounds(s: seq<bv32>, n: nat): (t: seq<bv32>)
    requires State(s)
    ensures State(t)
    decreases n
  {
    if n == 0 then s else Unrounds(UncolumnRound(UndiagonalRound(s)), n - 1)
  }

  /** Any number of double rounds is a bijection on the states. */
  lemma {:induction false} RoundsBijective(s: seq<bv32>, n: nat)
    requires State(s)
    ensures Unrounds(Rounds(s, n), n) == s && Rounds(Unrounds(s, n), n) == s
    decreases n
  {
    hide ColumnRound, DiagonalRound, UncolumnRound, UndiagonalRound;
    if n == 0 {
    } else {
      var t := Rounds(s, n - 1);
      RoundsBijective(s, n - 1);
      ColumnRoundBack(t);
      DiagonalRoundBack(ColumnRound(t));
      var u := UncolumnRound(UndiagonalRound(s));
      RoundsBijective(u, n - 1);
      ColumnRoundBack(UndiagonalRound(s));
      DiagonalRoundBack(s);
    }
  }

  // ---------- another way to see the rounds: on the rows of the matrix

  /** Row r of the 4 by 4 matrix turned left by r places. */
  function TurnRows(s: seq<bv32>): (t: seq<bv32>)
    requires State(s)
    ensures State(t)
  {
    [s[0], s[1], s[2], s[3], s[5], s[6], s[7], s[4], s[10], s[11], s[8], s[9], s[15], s[12], s[13], s[14]]
  }

  /** The four columns of a state, one below the other in memory. */
  function Columns(p: Quad, q: Quad, r: Quad, s: Quad): (t: seq<bv32>)
    ensures State(t)
  {
    [p.a, q.a, r.a, s.a, p.b, q.b, r.b, s.b, p.c, q.c, r.c, s.c, p.d, q.d, r.d, s.d]
  }

  lemma ColumnRoundIs(s: seq<bv32>)
    requires State(s)
    ensures ColumnRound(s) == Columns(Quarter(Get(s, 0, 4, 8, 12)), Quarter(Get(s, 1, 5, 9, 13)),
      Quarter(Get(s, 2, 6, 10, 14)), Quarter(Get(s, 3, 7, 11, 15)))
  {
    hide Quarter;
    var p, q := Quarter(Quad(s[0], s[4], s[8], s[12])), Quarter(Quad(s[1], s[5], s[9], s[13]));
    var r, t := Quarter(Quad(s[2], s[6], s[10], s[14])), Quarter(Quad(s[3], s[7], s[11], s[15]));
    var u := QuarterAt(s, 0, 4, 8, 12);
    var v := QuarterAt(u, 1, 5, 9, 13);
    var w := QuarterAt(v, 2, 6, 10, 14);
    GetOther(s, 0, 4, 8, 12, p, 1, 5, 9, 13);
    GetOther(s, 0, 4, 8, 12, p, 2, 6, 10, 14);
    GetOther(s, 0, 4, 8, 12, p, 3, 7, 11, 15);
    GetOther(u, 1, 5, 9, 13, q, 2, 6, 10, 14);
    GetOther(u, 1, 5, 9, 13, q, 3, 7, 11, 15);
    GetOther(v, 2, 6, 10, 14, r, 3, 7, 11, 15);
    SixteenPuts(s, p.a, p.b, p.c, p.d, q.a, q.b, q.c, q.d, r.a, r.b, r.c, r.d, t.a, t.b, t.c, t.d);
  }

  lemma GetOther(s: seq<bv32>, a: nat, b: nat, c: nat, d: nat, q: Quad, a': nat, b': nat, c': nat, d': nat)
    requires State(s) && Places(a, b, c, d) && Places(a', b', c', d')
    requires a' !in {a, b, c, d} && b' !in {a, b, c, d} && c' !in {a, b, c, d} && d' !in {a, b, c, d}
    ensures Get(Put(s, a, b, c, d, q), a', b', c', d') == Get(s, a', b', c', d')
  {
  }

  lemma SixteenPuts<T>(s: seq<T>, pa: T, pb: T, pc: T, pd: T, qa: T, qb: T, qc: T, qd: T,
      ra: T, rb: T, rc: T, rd: T, ta: T, tb: T, tc: T, td: T)
    requires |s| == 16
    ensures s[0 := pa][4 := pb][8 := pc][12 := pd][1 := qa][5 := qb][9 := qc][13 := qd]
             [2 := ra][6 := rb][10 := rc][14 := rd][3 := ta][7 := tb][11 := tc][15 := td]
         == [pa, qa, ra, ta, pb, qb, rb, tb, pc, qc, rc, tc, pd, qd, rd, td]
  {
  }

  /** A column round works on the four columns independently of each other. */
  lemma ColumnRoundAt(s: seq<bv32>, j: nat)
    requires State(s) && j < 4
    ensures Get(ColumnRound(s), j, j + 4, j + 8, j + 12) == Quarter(Get(s, j, j + 4, j + 8, j + 12))
  {
    hide Quarter, ColumnRound;
    ColumnRoundIs(s);
    hide Columns;
    var p, q := Quarter(Get(s, 0, 4, 8, 12)), Quarter(Get(s, 1, 5, 9, 13));
    var r, t := Quarter(Get(s, 2, 6, 10, 14)), Quarter(Get(s, 3, 7, 11, 15));
    ColumnsAt(p, q, r, t, j);
    assert j == 0 || j == 1 || j == 2 || j == 3;
  }

  lemma ColumnsAt(p: Quad, q: Quad, r: Quad, s: Quad, j: nat)
    requires j < 4
    ensures Get(Columns(p, q, r, s), j, j + 4, j + 8, j + 12)
      == if j == 0 then p else if j == 1 then q else if j == 2 then r else s
  {
  }

  lemma DiagonalRoundIs(s: seq<bv32>)
    requires State(s)
    ensures var p, q := Quarter(Get(s, 0, 5, 10, 15)), Quarter(Get(s, 1, 6, 11, 12));
      var r, t := Quarter(Get(s, 2, 7, 8, 13)), Quarter(Get(s, 3, 4, 9, 14));
      DiagonalRound(s)
        == [p.a, q.a, r.a, t.a, t.b, p.b, q.b, r.b, r.c, t.c, p.c, q.c, q.d, r.d, t.d, p.d]
  {
    hide Quarter;
    var p, q := Quarter(Get(s, 0, 5, 10, 15)), Quarter(Get(s, 1, 6, 11, 12));
    var r, t := Quarter(Get(s, 2, 7, 8, 13)), Quarter(Get(s, 3, 4, 9, 14));
    var u := QuarterAt(s, 0, 5, 10, 15);
    var v := QuarterAt(u, 1, 6, 11, 12);
    GetOther(s, 0, 5, 10, 15, p, 1, 6, 11, 12);
    GetOther(s, 0, 5, 10, 15, p, 2, 7, 8, 13);
    GetOther(s, 0, 5, 10, 15, p, 3, 4, 9, 14);
    GetOther(u, 1, 6, 11, 12, q, 2, 7, 8, 13);
    GetOther(u, 1, 6, 11, 12, q, 3, 4, 9, 14);
    GetOther(v, 2, 7, 8, 13, r, 3, 4, 9, 14);
    SixteenPutsTurned(s, p.a, p.b, p.c, p.d, q.a, q.b, q.c, q.d, r.a, r.b, r.c, r.d, t.a, t.b, t.c, t.d);
  }

  lemma SixteenPutsTurned<T>(s: seq<T>, pa: T, pb: T, pc: T, pd: T, qa: T, qb: T, qc: T, qd: T,
      ra: T, rb: T, rc: T, rd: T, ta: T, tb: T, tc: T, td: T)
    requires |s| == 16
    ensures s[0 := pa][5 := pb][10 := pc][15 := pd][1 := qa][6 := qb][11 := qc][12 := qd]
             [2 := ra][7 := rb][8 := rc][13 := rd][3 := ta][4 := tb][9 := tc][14 := td]
         == [pa, qa, ra, ta, tb, pb, qb, rb, rc, tc, pc, qc, qd, rd, td, pd]
  {
  }

  /** The diagonals become the columns when the rows are turned. */
  lemma DiagonalsAreColumns(s: seq<bv32>)
    requires State(s)
    ensures TurnRows(DiagonalRound(s)) == ColumnRound(TurnRows(s))
  {
    DiagonalRoundIs(s);
    ColumnRoundIs(TurnRows(s));
    hide Quarter, ColumnRound, DiagonalRound;
  }

  // ---------- the block function, section 2.3

  /** The little-endian word i of a byte string. */
  function Word(s: seq<byte>, i: nat): bv32
    requires 4 * i + 4 <= |s|
  {
    LEBound(s[4 * i..4 * i + 4]);
    Pow2Table();
    ToWord(LE(s[4 * i..4 * i + 4]))
  }

  function Words(s: seq<byte>, n: nat): (w: seq<bv32>)
    requires |s| == 4 * n
    ensures |w| == n
  {
    seq(n, i requires 0 <= i < n => Word(s, i))
  }

  /** The constants spell "expand 32-byte k". */
  function Start(key: seq<byte>, nonce: seq<byte>, counter: u32): (s: seq<bv32>)
    requires |key| == 32 && |nonce| == 12
    ensures State(s)
  {
    [0x61707865, 0x3320646e, 0x79622d32, 0x6b206574] + Words(key, 8) + [ToWord(counter)] + Words(nonce, 3)
  }

  function AddStates(s: seq<bv32>, t: seq<bv32>): (r: seq<bv32>)
    requires State(s) && State(t)
    ensures State(r)
  {
    seq(16, i requires 0 <= i < 16 => Add32(s[i], t[i]))
  }

  /** Words as little-endian bytes, one after the other. */
  function Serialise(w: seq<bv32>): (s: seq<byte>)
    ensures |s| == 4 * |w|
  {
    if w == [] then [] else Serialise(w[..|w| - 1]) + LeBytes(FromWord(w[|w| - 1]), 4)
  }

  function Block(key: seq<byte>, nonce: seq<byte>, counter: u32): (s: seq<byte>)
    requires |key| == 32 && |nonce| == 12
    ensures |s| == 64
  {
    var s := Start(key, nonce, counter);
    Serialise(AddStates(Rounds(s, 10), s))
  }

  // ---------- the key stream, section 2.4

  /** The counter n blocks further on; it is a 32-bit word. */
  function Advance(counter: u32, n: nat): u32 {
    (counter + n) % 0x1_0000_0000
  }

  function KeyStream(key: seq<byte>, nonce: seq<byte>, counter: u32, n: nat): (ks: seq<byte>)
    requires |key| == 32 && |nonce| == 12
    ensures |ks| == n
  {
    seq(n, i requires 0 <= i < n => Block(key, nonce, Advance(counter, i / 64))[i % 64])
  }

  function Crypt(key: seq<byte>, nonce: seq<byte>, counter: u32, data: seq<byte>): (out: seq<byte>)
    requires |key| == 32 && |nonce| == 12
    ensures |out| == |data|
  {
    XorBytes(data, KeyStream(key, nonce, counter, |data|))
  }

  lemma CryptTwice(key: seq<byte>, nonce: seq<byte>, counter: u32, data: seq<byte>)
    requires |key| == 32 && |nonce| == 12
    ensures Crypt(key, nonce, counter, Crypt(key, nonce, counter, data)) == data
  {
    hide KeyStream;
    XorBytesTwice(data, KeyStream(key, nonce, counter, |data|));
  }

  lemma AdvanceTwice(counter: u32, m: nat, n: nat)
    ensures Advance(Advance(counter, m), n) == Advance(counter, m + n)
  {
  }

  lemma KeyStreamSplits(key: seq<byte>, nonce: seq<byte>, counter: u32, blocks: nat, n: nat)
    requires |key| == 32 && |nonce| == 12
    ensures KeyStream(key, nonce, counter, 64 * blocks + n)
      == KeyStream(key, nonce, counter, 64 * blocks) + KeyStream(key, nonce, Advance(counter, blocks), n)
  {
    hide Block, Advance;
    var whole, rest := KeyStream(key, nonce, counter, 64 * blocks + n),
      KeyStream(key, nonce, Advance(counter, blocks), n);
    forall i: nat | i < n ensures whole[64 * blocks + i] == rest[i] {
      ModUnique(64 * blocks + i, 64, blocks + i / 64, i % 64);
      AdvanceTwice(counter, blocks, i / 64);
    }
  }

  /** Data may be split after any whole number of blocks if the counter goes on. */
  lemma CryptSplits(key: seq<byte>, nonce: seq<byte>, counter: u32, blocks: nat, front: seq<byte>, back: seq<byte>)
    requires |key| == 32 && |nonce| == 12 && |front| == 64 * blocks
    ensures Crypt(key, nonce, counter, front + back)
      == Crypt(key, nonce, counter, front) + Crypt(key, nonce, Advance(counter, blocks), back)
  {
    hide KeyStream, Advance;
    KeyStreamSplits(key, nonce, counter, blocks, |back|);
    XorBytesConcat(front, back, KeyStream(key, nonce, counter, |front|),
      KeyStream(key, nonce, Advance(counter, blocks), |back|));
  }

  // ---------- the authenticated cipher, section 2.8

  /** How many zeros fill n bytes up to a multiple of 16. */
  function Fill(n: nat): (k: nat)
    ensures k < 16 && (n + k) % 16 == 0
  {
    (16 - n % 16) % 16
  }

  function Filled16(s: seq<byte>): (p: seq<byte>)
    ensures |p| == |s| + Fill(|s|)
  {
    s + Zeros(Fill(|s|))
  }

  function MacData(aad: seq<byte>, ct: seq<byte>): (data: seq<byte>)
    ensures |data| == |aad| + Fill(|aad|) + |ct| + Fill(|ct|) + 16
  {
    Filled16(aad) + Filled16(ct) + LeBytes(|aad|, 8) + LeBytes(|ct|, 8)
  }

  /** The tag, under the one-time key of section 2.6. */
  function Tag(key: seq<byte>, nonce: seq<byte>, aad: seq<byte>, ct: seq<byte>): (tag: seq<byte>)
    requires |key| == 32 && |nonce| == 12
    ensures |tag| == 16
  {
    Poly1305.Mac(MacData(aad, ct), Block(key, nonce, 0)[..32])
  }

  function Encrypt(key: seq<byte>, nonce: seq<byte>, aad: seq<byte>, pt: seq<byte>): Sealed
    requires |key| == 32 && |nonce| == 12
  {
    var ct := Crypt(key, nonce, 1, pt);
    Sealed(ct, Tag(key, nonce, aad, ct))
  }

  function Decrypt(key: seq<byte>, nonce: seq<byte>, aad: seq<byte>, ct: seq<byte>, tag: seq<byte>): Opened
    requires |key| == 32 && |nonce| == 12
  {
    if tag == Tag(key, nonce, aad, ct) then Accepted(Crypt(key, nonce, 1, ct)) else Rejected
  }

  /** Decryption restores what encryption sealed, and accepts nothing but what encryption produces. */
  lemma DecryptEncrypt(key: seq<byte>, nonce: seq<byte>, aad: seq<byte>, pt: seq<byte>, ct: seq<byte>, tag: seq<byte>)
    requires |key| == 32 && |nonce| == 12
    ensures Decrypt(key, nonce, aad, ct, tag) == Accepted(pt) <==> Encrypt(key, nonce, aad, pt) == Sealed(ct, tag)
  {
    hide Tag, Crypt;
    CryptTwice(key, nonce, 1, pt);
    CryptTwice(key, nonce, 1, ct);
  }

  /** The authenticated data determines the associated data and the ciphertext. */
  lemma MacDataInjective(aad: seq<byte>, ct: seq<byte>, aad': seq<byte>, ct': seq<byte>)
    requires |aad| < 0x1_0000_0000_0000_0000 && |ct| < 0x1_0000_0000_0000_0000
    requires |aad'| < 0x1_0000_0000_0000_0000 && |ct'| < 0x1_0000_0000_0000_0000
    requires MacData(aad, ct) == MacData(aad', ct')
    ensures aad == aad' && ct == ct'
  {
    hide MacData, Fill;
    MacDataFields(aad, ct, MacData(aad, ct));
    MacDataFields(aad', ct', MacData(aad, ct));
    assert aad == MacData(aad, ct)[..|aad|] == aad';
  }

  /** Byte i of the ciphertext comes from the key block with the counter i/64 + 1. */
  lemma SealedByte(key: seq<byte>, nonce: seq<byte>, aad: seq<byte>, pt: seq<byte>, i: nat)
    requires |key| == 32 && |nonce| == 12 && i < |pt|
    ensures var ct := Encrypt(key, nonce, aad, pt).ct;
      |ct| == |pt| && ct[i] == XorByte(pt[i], Block(key, nonce, (i / 64 + 1) % 0x1_0000_0000)[i % 64])
  {
    hide Block, Tag;
  }

  /** The one-time key is the first half of the block with the counter 0.  Authenticated are the AAD and the
      ciphertext, each filled up with zeros, and their lengths. */
  lemma TagFrom(key: seq<byte>, nonce: seq<byte>, aad: seq<byte>, ct: seq<byte>, data: seq<byte>, m: nat, n: nat)
    requires |key| == 32 && |nonce| == 12
    requires |aad| < 0x1_0000_0000_0000_0000 && |ct| < 0x1_0000_0000_0000_0000
    requires m == 16 * ((|aad| + 15) / 16) && n == 16 * ((|ct| + 15) / 16) && |data| == m + n + 16
    requires data[..m] == aad + Zeros(m - |aad|) && data[m..m + n] == ct + Zeros(n - |ct|)
    requires LE(data[m + n..m + n + 8]) == |aad| && LE(data[m + n + 8..]) == |ct|
    ensures Tag(key, nonce, aad, ct) == Poly1305.Mac(data, Block(key, nonce, 0)[..32])
  {
    FillIs(|aad|);
    FillIs(|ct|);
    hide *;
    LeBytesOfLE(data[m + n..m + n + 8]);
    LeBytesOfLE(data[m + n + 8..]);
    FourParts(data, m, m + n, m + n + 8);
    MacDataIs(aad, ct, m - |aad|, n - |ct|);
    TagIs(key, nonce, aad, ct);
  }

  lemma FourParts(data: seq<byte>, i: nat, j: nat, k: nat)
    requires i <= j <= k <= |data|
    ensures data == data[..i] + data[i..j] + data[j..k] + data[k..]
  {
  }

  lemma MacDataIs(aad: seq<byte>, ct: seq<byte>, i: nat, j: nat)
    requires i == Fill(|aad|) && j == Fill(|ct|)
    ensures MacData(aad, ct) == (aad + Zeros(i)) + (ct + Zeros(j)) + LeBytes(|aad|, 8) + LeBytes(|ct|, 8)
  {
  }

  lemma TagIs(key: seq<byte>, nonce: seq<byte>, aad: seq<byte>, ct: seq<byte>)
    requires |key| == 32 && |nonce| == 12
    ensures Tag(key, nonce, aad, ct) == Poly1305.Mac(MacData(aad, ct), Block(key, nonce, 0)[..32])
  {
    hide Block, Poly1305.Mac, MacData;
  }

  lemma FillIs(n: nat)
    ensures n + Fill(n) == 16 * ((n + 15) / 16)
  {
  }

  lemma MacDataFields(aad: seq<byte>, ct: seq<byte>, data: seq<byte>)
    requires |aad| < 0x1_0000_0000_0000_0000 && |ct| < 0x1_0000_0000_0000_0000
    requires data == MacData(aad, ct)
    ensures |data| >= 16 && LE(data[|data| - 16..|data| - 8]) == |aad| && LE(data[|data| - 8..]) == |ct|
    ensures |aad| + Fill(|aad|) + |ct| <= |data| && data[..|aad|] == aad
    ensures data[|aad| + Fill(|aad|)..|aad| + Fill(|aad|) + |ct|] == ct
  {
    hide LE, LeBytes, Fill;
    assert data[|data| - 16..|data| - 8] == LeBytes(|aad|, 8);
    assert data[|data| - 8..] == LeBytes(|ct|, 8);
    EightBytes(|aad|);
    EightBytes(|ct|);
  }

  lemma EightBytes(n: nat)
    requires n < 0x1_0000_0000_0000_0000
    ensures LE(LeBytes(n, 8)) == n
  {
    hide LE, LeBytes;
    LEOfLeBytes(n, 8);
    Pow2Large();
  }
}
