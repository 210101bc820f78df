/** The example of appendix C.1 of FIPS 197: every step of the cipher and of the key schedule on one block. */
module AesVector {
  import opened Aes
  import opened AesField
  import opened AesKeys
  import opened AesTables
  import opened Bits
  import opened Gf256

  /** A column, and the four columns of a block, in machine bytes. */
  datatype Quad = Quad(a: bv8, b: bv8, c: bv8, d: bv8)

  datatype State = State(p: Quad, q: Quad, r: Quad, s: Quad)

  function Nat(x: bv8): byte { x as byte }

  function Bytes(t: State): (r: seq<byte>)
    ensures |r| == 16
  {
    [Nat(t.p.a), Nat(t.p.b), Nat(t.p.c), Nat(t.p.d), Nat(t.q.a), Nat(t.q.b), Nat(t.q.c), Nat(t.q.d),
     Nat(t.r.a), Nat(t.r.b), Nat(t.r.c), Nat(t.r.d), Nat(t.s.a), Nat(t.s.b), Nat(t.s.c), Nat(t.s.d)]
  }

  function Plus(x: bv8, y: bv8): bv8 { x ^ y }

  function Double(x: bv8): bv8 { (x << 1) ^ (if x & 0x80 == 0x80 then 0x1b else 0) }

  /** A byte of a mixed column with a byte of the key. */
  function Mix(a: bv8, b: bv8, c: bv8, d: bv8, k: bv8): bv8 {
    Plus(Plus(Plus(Plus(Double(a), Plus(Double(b), b)), c), d), k)
  }

  predicate Added(x: Quad, k: Quad, t: Quad) {
    t.a == Plus(x.a, k.a) && t.b == Plus(x.b, k.b) && t.c == Plus(x.c, k.c) && t.d == Plus(x.d, k.d)
  }

  /** One column of a round after the substitution. */
  predicate Mixes(u: Quad, k: Quad, t: Quad) {
    && t.a == Mix(u.a, u.b, u.c, u.d, k.a) && t.b == Mix(u.b, u.c, u.d, u.a, k.b)
    && t.c == Mix(u.c, u.d, u.a, u.b, k.c) && t.d == Mix(u.d, u.a, u.b, u.c, k.d)
  }

  predicate Subst(x: bv8, y: bv8) { Sbox(Nat(x)) == Nat(y) }

  predicate SubstQuad(a: bv8, b: bv8, c: bv8, d: bv8, u: Quad) {
    Subst(a, u.a) && Subst(b, u.b) && Subst(c, u.c) && Subst(d, u.d)
  }

  /** The substitution, and row r moved r columns to the left. */
  predicate Subs(s: State, u: State) { LeftSubs(s, u.p, u.q) && RightSubs(s, u.r, u.s) }

  predicate LeftSubs(s: State, p: Quad, q: Quad) {
    SubstQuad(s.p.a, s.q.b, s.r.c, s.s.d, p) && SubstQuad(s.q.a, s.r.b, s.s.c, s.p.d, q)
  }

  predicate RightSubs(s: State, r: Quad, q: Quad) {
    SubstQuad(s.r.a, s.s.b, s.p.c, s.q.d, r) && SubstQuad(s.s.a, s.p.b, s.q.c, s.r.d, q)
  }

  // ---- these machine operations are the ones of the cipher ----

  lemma Two(x: bv8, y: bv8)
    ensures XorB(Nat(x), Nat(y)) == Nat(Plus(x, y))
  {
    hide Xor;
    XorIsMachineXor(x, y);
  }

  lemma ShiftedLeft(x: bv8)
    ensures (x << 1) as nat == 2 * (x as nat) % 256
    ensures (if x & 0x80 == 0x80 then 0x1b else 0) == (x as nat) / 128 * 0x1b
  {
  }

  lemma DoubleIs(x: bv8)
    ensures Nat(Double(x)) == Xtime(Nat(x))
  {
    hide Xor;
    ShiftedLeft(x);
    XorIsMachineXor(x << 1, if x & 0x80 == 0x80 then 0x1b else 0);
  }

  function FourOf(u: Quad): Four { Four(Nat(u.a), Nat(u.b), Nat(u.c), Nat(u.d)) }

  /** 2a + 3b + c + d and a byte of the key. */
  lemma RowMixes(a: bv8, b: bv8, c: bv8, d: bv8, k: bv8)
    ensures XorB(Dot(Four(Nat(a), Nat(b), Nat(c), Nat(d)), MIX), Nat(k)) == Nat(Mix(a, b, c, d, k))
  {
    hide XorB; hide Dot; hide Double; hide Plus; hide Nat; hide Xtime;
    DoubleIs(a); DoubleIs(b);
    DotMix(Nat(a), Nat(b), Nat(c), Nat(d));
    var x := Plus(Double(b), b);
    Two(Double(b), b);
    Two(Double(a), x); Two(Plus(Double(a), x), c); Two(Plus(Plus(Double(a), x), c), d);
    Two(Plus(Plus(Plus(Double(a), x), c), d), k);
  }

  lemma DotMix(a: byte, b: byte, c: byte, d: byte)
    ensures Dot(Four(a, b, c, d), MIX) == XorB(XorB(XorB(Xtime(a), XorB(Xtime(b), b)), c), d)
  {
    SmallProducts(a); SmallProducts(b); SmallProducts(c); SmallProducts(d);
    hide XorB; hide Xtime; hide Mul;
  }

  lemma ColumnMixes(u: Quad, k: Quad, t: Quad)
    requires Mixes(u, k, t)
    ensures var m := MixColumn(FourOf(u), MIX);
            && XorB(m.m0, Nat(k.a)) == Nat(t.a) && XorB(m.m1, Nat(k.b)) == Nat(t.b)
            && XorB(m.m2, Nat(k.c)) == Nat(t.c) && XorB(m.m3, Nat(k.d)) == Nat(t.d)
  {
    hide XorB; hide Dot; hide Mix; hide Nat;
    RowMixes(u.a, u.b, u.c, u.d, k.a); RowMixes(u.b, u.c, u.d, u.a, k.b);
    RowMixes(u.c, u.d, u.a, u.b, k.c); RowMixes(u.d, u.a, u.b, u.c, k.d);
  }

  lemma BytesAre(t: State)
    ensures Bytes(t)[0] == Nat(t.p.a) && Bytes(t)[1] == Nat(t.p.b) && Bytes(t)[2] == Nat(t.p.c) && Bytes(t)[3] == Nat(t.p.d)
    ensures Bytes(t)[4] == Nat(t.q.a) && Bytes(t)[5] == Nat(t.q.b) && Bytes(t)[6] == Nat(t.q.c) && Bytes(t)[7] == Nat(t.q.d)
    ensures Bytes(t)[8] == Nat(t.r.a) && Bytes(t)[9] == Nat(t.r.b) && Bytes(t)[10] == Nat(t.r.c) && Bytes(t)[11] == Nat(t.r.d)
    ensures Bytes(t)[12] == Nat(t.s.a) && Bytes(t)[13] == Nat(t.s.b) && Bytes(t)[14] == Nat(t.s.c) && Bytes(t)[15] == Nat(t.s.d)
  {
    hide *;
    FirstBytes(t); LastBytes(t);
  }

  lemma FirstBytes(t: State)
    ensures Bytes(t)[0] == Nat(t.p.a) && Bytes(t)[1] == Nat(t.p.b) && Bytes(t)[2] == Nat(t.p.c) && Bytes(t)[3] == Nat(t.p.d)
    ensures Bytes(t)[4] == Nat(t.q.a) && Bytes(t)[5] == Nat(t.q.b) && Bytes(t)[6] == Nat(t.q.c) && Bytes(t)[7] == Nat(t.q.d)
  {
    hide Nat;
  }

  lemma LastBytes(t: State)
    ensures Bytes(t)[8] == Nat(t.r.a) && Bytes(t)[9] == Nat(t.r.b) && Bytes(t)[10] == Nat(t.r.c) && Bytes(t)[11] == Nat(t.r.d)
    ensures Bytes(t)[12] == Nat(t.s.a) && Bytes(t)[13] == Nat(t.s.b) && Bytes(t)[14] == Nat(t.s.c) && Bytes(t)[15] == Nat(t.s.d)
  {
    hide Nat;
  }

  lemma ColumnOf(u: State)
    ensures Column(Bytes(u), 0) == FourOf(u.p) && Column(Bytes(u), 1) == FourOf(u.q)
    ensures Column(Bytes(u), 2) == FourOf(u.r) && Column(Bytes(u), 3) == FourOf(u.s)
  {
    hide Nat;
  }

  /** Blocks are equal when their bytes are, one by one. */
  lemma Sixteen(a: seq<byte>, b: seq<byte>)
    requires |a| == |b| == 16
    requires a[0] == b[0] && a[1] == b[1] && a[2] == b[2] && a[3] == b[3] && a[4] == b[4] && a[5] == b[5] && a[6] == b[6] && a[7] == b[7]
    requires a[8] == b[8] && a[9] == b[9] && a[10] == b[10] && a[11] == b[11] && a[12] == b[12] && a[13] == b[13] && a[14] == b[14] && a[15] == b[15]
    ensures a == b
  {
  }

  predicate MixesAll(u: State, k: State, t: State) {
    Mixes(u.p, k.p, t.p) && Mixes(u.q, k.q, t.q) && Mixes(u.r, k.r, t.r) && Mixes(u.s, k.s, t.s)
  }

  lemma MixedAll(u: State, k: State, t: State)
    requires MixesAll(u, k, t)
    ensures Mixes(u.p, k.p, t.p) && Mixes(u.q, k.q, t.q) && Mixes(u.r, k.r, t.r) && Mixes(u.s, k.s, t.s)
  {
    hide Mixes;
  }

  /** One column of a block that is mixed and has a key added. */
  lemma MixedQuad(b: seq<byte>, k: seq<byte>, c: nat)
    requires |b| == |k| == 16 && c < 4
    ensures var v, m := XorBlock(Mixed(b, MIX), k), MixColumn(Column(b, c), MIX);
            && v[4 * c] == XorB(m.m0, k[4 * c]) && v[4 * c + 1] == XorB(m.m1, k[4 * c + 1])
            && v[4 * c + 2] == XorB(m.m2, k[4 * c + 2]) && v[4 * c + 3] == XorB(m.m3, k[4 * c + 3])
  {
    hide XorB; hide MixColumn; hide Column;
    GridPlace(c, 0); GridPlace(c, 1); GridPlace(c, 2); GridPlace(c, 3);
  }

  lemma Columns(u: State, k: State, t: State)
    requires MixesAll(u, k, t)
    ensures XorBlock(Mixed(Bytes(u), MIX), Bytes(k)) == Bytes(t)
  {
    hide *;
    MixedAll(u, k, t);
    ColumnMixes(u.p, k.p, t.p); ColumnMixes(u.q, k.q, t.q); ColumnMixes(u.r, k.r, t.r); ColumnMixes(u.s, k.s, t.s);
    ColumnOf(u); BytesAre(k); BytesAre(t);
    MixedQuad(Bytes(u), Bytes(k), 0); MixedQuad(Bytes(u), Bytes(k), 1);
    MixedQuad(Bytes(u), Bytes(k), 2); MixedQuad(Bytes(u), Bytes(k), 3);
    Sixteen(XorBlock(Mixed(Bytes(u), MIX), Bytes(k)), Bytes(t));
  }

  lemma SubsAre(s: State, u: State)
    requires Subs(s, u)
    ensures Sbox(Nat(s.p.a)) == Nat(u.p.a) && Sbox(Nat(s.q.b)) == Nat(u.p.b) && Sbox(Nat(s.r.c)) == Nat(u.p.c) && Sbox(Nat(s.s.d)) == Nat(u.p.d)
    ensures Sbox(Nat(s.q.a)) == Nat(u.q.a) && Sbox(Nat(s.r.b)) == Nat(u.q.b) && Sbox(Nat(s.s.c)) == Nat(u.q.c) && Sbox(Nat(s.p.d)) == Nat(u.q.d)
    ensures Sbox(Nat(s.r.a)) == Nat(u.r.a) && Sbox(Nat(s.s.b)) == Nat(u.r.b) && Sbox(Nat(s.p.c)) == Nat(u.r.c) && Sbox(Nat(s.q.d)) == Nat(u.r.d)
    ensures Sbox(Nat(s.s.a)) == Nat(u.s.a) && Sbox(Nat(s.p.b)) == Nat(u.s.b) && Sbox(Nat(s.q.c)) == Nat(u.s.c) && Sbox(Nat(s.r.d)) == Nat(u.s.d)
  {
    hide Sbox; hide Nat;
  }

  /** Byte c, r of the shifted block comes from column c + r. */
  lemma MovedFrom(b: seq<byte>, c: nat, r: nat)
    requires |b| == 16 && c < 4 && r < 4
    ensures Shifted(Substituted(b))[4 * c + r] == Sbox(b[4 * ((c + r) % 4) + r])
  {
    hide Sbox; hide Place;
    PlaceIs(c, r);
  }

  lemma Moved(b: seq<byte>, v: seq<byte>)
    requires |b| == 16 && v == Shifted(Substituted(b))
    ensures v[0] == Sbox(b[0]) && v[1] == Sbox(b[5]) && v[2] == Sbox(b[10]) && v[3] == Sbox(b[15])
    ensures v[4] == Sbox(b[4]) && v[5] == Sbox(b[9]) && v[6] == Sbox(b[14]) && v[7] == Sbox(b[3])
    ensures v[8] == Sbox(b[8]) && v[9] == Sbox(b[13]) && v[10] == Sbox(b[2]) && v[11] == Sbox(b[7])
    ensures v[12] == Sbox(b[12]) && v[13] == Sbox(b[1]) && v[14] == Sbox(b[6]) && v[15] == Sbox(b[11])
  {
    hide *;
    MovedFrom(b, 0, 0); MovedFrom(b, 0, 1); MovedFrom(b, 0, 2); MovedFrom(b, 0, 3);
    MovedFrom(b, 1, 0); MovedFrom(b, 1, 1); MovedFrom(b, 1, 2); MovedFrom(b, 1, 3);
    MovedFrom(b, 2, 0); MovedFrom(b, 2, 1); MovedFrom(b, 2, 2); MovedFrom(b, 2, 3);
    MovedFrom(b, 3, 0); MovedFrom(b, 3, 1); MovedFrom(b, 3, 2); MovedFrom(b, 3, 3);
  }

  lemma SubsIs(s: State, u: State)
    requires Subs(s, u)
    ensures Shifted(Substituted(Bytes(s))) == Bytes(u)
  {
    hide *;
    SubsAre(s, u);
    BytesAre(s); BytesAre(u);
    Moved(Bytes(s), Shifted(Substituted(Bytes(s))));
    Sixteen(Shifted(Substituted(Bytes(s))), Bytes(u));
  }

  // ---- the steps of the cipher ----

  predicate AddedAll(x: State, k: State, t: State) {
    Added(x.p, k.p, t.p) && Added(x.q, k.q, t.q) && Added(x.r, k.r, t.r) && Added(x.s, k.s, t.s)
  }

  lemma AddedAt(x: Quad, k: Quad, t: Quad)
    requires Added(x, k, t)
    ensures XorB(Nat(x.a), Nat(k.a)) == Nat(t.a) && XorB(Nat(x.b), Nat(k.b)) == Nat(t.b)
    ensures XorB(Nat(x.c), Nat(k.c)) == Nat(t.c) && XorB(Nat(x.d), Nat(k.d)) == Nat(t.d)
  {
    hide XorB; hide Nat; hide Plus;
    Two(x.a, k.a); Two(x.b, k.b); Two(x.c, k.c); Two(x.d, k.d);
  }

  lemma AddedIs(x: State, k: State, t: State)
    requires AddedAll(x, k, t)
    ensures XorBlock(Bytes(x), Bytes(k)) == Bytes(t)
  {
    hide Added; hide XorB; hide Nat; hide Bytes;
    BytesAre(x); BytesAre(k); BytesAre(t);
    AddedAt(x.p, k.p, t.p); AddedAt(x.q, k.q, t.q); AddedAt(x.r, k.r, t.r); AddedAt(x.s, k.s, t.s);
    Sixteen(XorBlock(Bytes(x), Bytes(k)), Bytes(t));
  }

  /** Round r, from state s by way of u to state t. */
  lemma Round(b: seq<byte>, rk: seq<byte>, r: nat, s: State, u: State, k: State, t: State)
    requires |b| == 16 && |rk| == ROUND_KEY_SIZE && 0 < r < NR
    requires After(b, rk, r - 1) == Bytes(s) && RoundKey(rk, r) == Bytes(k) && Subs(s, u) && MixesAll(u, k, t)
    ensures After(b, rk, r) == Bytes(t)
  {
    SubsIs(s, u);
    Columns(u, k, t);
    hide Bytes; hide Subs; hide MixesAll; hide XorBlock; hide Mixed; hide Shifted; hide Substituted; hide RoundKey;
  }

  // ---- the steps of the key schedule ----

  function WordOf(q: Quad): (r: seq<byte>)
    ensures |r| == 4
  {
    [Nat(q.a), Nat(q.b), Nat(q.c), Nat(q.d)]
  }

  /** The words of round key r. */
  predicate KeyWords(key: seq<byte>, r: nat, k: State)
    requires |key| == 16 && r <= NR
  {
    && Schedule(key, 4 * r) == WordOf(k.p) && Schedule(key, 4 * r + 1) == WordOf(k.q)
    && Schedule(key, 4 * r + 2) == WordOf(k.r) && Schedule(key, 4 * r + 3) == WordOf(k.s)
  }

  lemma KeyByte(key: seq<byte>, r: nat, c: nat)
    requires |key| == 16 && r <= NR && c < 4
    ensures var k, w := RoundKey(Expansion(key), r), Schedule(key, 4 * r + c);
            k[4 * c] == w[0] && k[4 * c + 1] == w[1] && k[4 * c + 2] == w[2] && k[4 * c + 3] == w[3]
  {
    hide Schedule;
    var n := 4 * r + c;
    assert (4 * n) / 4 == n && (4 * n + 1) / 4 == n && (4 * n + 2) / 4 == n && (4 * n + 3) / 4 == n;
    assert (4 * n) % 4 == 0 && (4 * n + 1) % 4 == 1 && (4 * n + 2) % 4 == 2 && (4 * n + 3) % 4 == 3;
  }

  lemma WordAt(q: Quad)
    ensures WordOf(q)[0] == Nat(q.a) && WordOf(q)[1] == Nat(q.b) && WordOf(q)[2] == Nat(q.c) && WordOf(q)[3] == Nat(q.d)
  {
    hide Nat;
  }

  lemma KeyWordsAre(key: seq<byte>, r: nat, k: State)
    requires |key| == 16 && r <= NR && KeyWords(key, r, k)
    ensures RoundKey(Expansion(key), r) == Bytes(k)
  {
    hide Nat; hide Schedule; hide Bytes; hide WordOf; hide Expansion; hide RoundKey;
    BytesAre(k);
    KeyByte(key, r, 0); KeyByte(key, r, 1); KeyByte(key, r, 2); KeyByte(key, r, 3);
    WordAt(k.p); WordAt(k.q); WordAt(k.r); WordAt(k.s);
    Sixteen(RoundKey(Expansion(key), r), Bytes(k));
  }

  lemma WordsAdded(x: Quad, k: Quad, t: Quad)
    requires Added(x, k, t)
    ensures XorWord(WordOf(x), WordOf(k)) == WordOf(t)
  {
    AddedAt(x, k, t);
    hide Nat; hide Added; hide XorB;
  }

  lemma Substituted4(q: Quad, g: Quad)
    requires SubstQuad(q.b, q.c, q.d, q.a, g)
    ensures SubWord(RotWord(WordOf(q))) == WordOf(g)
  {
    hide Sbox; hide Nat;
  }

  /** The first word of the next round key: g is the substituted last word, and h that with the round constant c. */
  lemma FirstWord(key: seq<byte>, r: nat, k: State, g: Quad, c: bv8, h: Quad, n: Quad)
    requires |key| == 16 && r < NR && KeyWords(key, r, k)
    requires SubstQuad(k.s.b, k.s.c, k.s.d, k.s.a, g) && Rcon(r + 1) == Nat(c) && Added(g, Quad(c, 0, 0, 0), h) && Added(k.p, h, n)
    ensures WORDS == 44 && Schedule(key, 4 * r + 4) == WordOf(n)
  {
    hide *;
    KeyWordsIs(key, r, k);
    Substituted4(k.s, g);
    WordsAdded(g, Quad(c, 0, 0, 0), h);
    ConstantWord(c);
    WordsAdded(k.p, h, n);
    NextWord(key, 4 * r + 4);
    TempIs(4 * r + 4, Schedule(key, 4 * r + 3));
  }

  /** Its other words. */
  lemma LaterWord(key: seq<byte>, i: nat, k: Quad, m: Quad, n: Quad)
    requires |key| == 16 && 4 <= i < 44 && i % 4 != 0 && WORDS == 44
    requires Schedule(key, i - 4) == WordOf(k) && Schedule(key, i - 1) == WordOf(m) && Added(k, m, n)
    ensures Schedule(key, i) == WordOf(n)
  {
    hide *;
    WordsAdded(k, m, n);
    NextWord(key, i);
    TempIs(i, WordOf(m));
  }

  /** From one round key to the next. */
  lemma NextKey(key: seq<byte>, r: nat, k: State, g: Quad, c: bv8, h: Quad, n: State)
    requires |key| == 16 && r < NR && KeyWords(key, r, k)
    requires SubstQuad(k.s.b, k.s.c, k.s.d, k.s.a, g) && Rcon(r + 1) == Nat(c) && Added(g, Quad(c, 0, 0, 0), h)
    requires Added(k.p, h, n.p) && Added(k.q, n.p, n.q) && Added(k.r, n.q, n.r) && Added(k.s, n.r, n.s)
    ensures KeyWords(key, r + 1, n)
  {
    hide *;
    KeyWordsIs(key, r, k);
    FirstWord(key, r, k, g, c, h, n.p);
    LaterWord(key, 4 * r + 5, k.q, n.p, n.q); LaterWord(key, 4 * r + 6, k.r, n.q, n.r); LaterWord(key, 4 * r + 7, k.s, n.r, n.s);
    KeyWordsIs(key, r + 1, n);
  }

  lemma KeyWordsIs(key: seq<byte>, r: nat, k: State)
    requires |key| == 16 && r <= NR
    ensures KeyWords(key, r, k)
            <==> && Schedule(key, 4 * r) == WordOf(k.p) && Schedule(key, 4 * r + 1) == WordOf(k.q)
                 && Schedule(key, 4 * r + 2) == WordOf(k.r) && Schedule(key, 4 * r + 3) == WordOf(k.s)
    ensures NR == 10 && WORDS == 44 && NK == 4
  {
    hide Schedule; hide WordOf;
  }

  lemma ConstantWord(c: bv8)
    ensures WordOf(Quad(c, 0, 0, 0)) == [Nat(c), 0, 0, 0]
  {
  }

  lemma NextWord(key: seq<byte>, i: nat)
    requires |key| == 16 && 4 <= i < 44
    ensures WORDS == 44 && Schedule(key, i) == XorWord(Schedule(key, i - 4), Temp(i, Schedule(key, i - 1)))
  {
    hide XorWord; hide Temp;
  }

  lemma TempIs(i: nat, w: seq<byte>)
    requires i < 44 && |w| == 4
    ensures WORDS == 44 && i / 4 <= 10
    ensures Temp(i, w) == if i % 4 == 0 then XorWord(SubWord(RotWord(w)), [Rcon(i / 4), 0, 0, 0]) else w
  {
    hide XorWord; hide SubWord; hide RotWord; hide Rcon;
  }

  // ---- the example: the round keys, and the states after each round ----

  const TEXT := State(Quad(0x00, 0x11, 0x22, 0x33), Quad(0x44, 0x55, 0x66, 0x77), Quad(0x88, 0x99, 0xaa, 0xbb), Quad(0xcc, 0xdd, 0xee, 0xff))

  const KEY0 := State(Quad(0x00, 0x01, 0x02, 0x03), Quad(0x04, 0x05, 0x06, 0x07), Quad(0x08, 0x09, 0x0a, 0x0b), Quad(0x0c, 0x0d, 0x0e, 0x0f))
  const KEY1 := State(Quad(0xd6, 0xaa, 0x74, 0xfd), Quad(0xd2, 0xaf, 0x72, 0xfa), Quad(0xda, 0xa6, 0x78, 0xf1), Quad(0xd6, 0xab, 0x76, 0xfe))
  const KEY2 := State(Quad(0xb6, 0x92, 0xcf, 0x0b), Quad(0x64, 0x3d, 0xbd, 0xf1), Quad(0xbe, 0x9b, 0xc5, 0x00), Quad(0x68, 0x30, 0xb3, 0xfe))
  const KEY3 := State(Quad(0xb6, 0xff, 0x74, 0x4e), Quad(0xd2, 0xc2, 0xc9, 0xbf), Quad(0x6c, 0x59, 0x0c, 0xbf), Quad(0x04, 0x69, 0xbf, 0x41))
  const KEY4 := State(Quad(0x47, 0xf7, 0xf7, 0xbc), Quad(0x95, 0x35, 0x3e, 0x03), Quad(0xf9, 0x6c, 0x32, 0xbc), Quad(0xfd, 0x05, 0x8d, 0xfd))
  const KEY5 := State(Quad(0x3c, 0xaa, 0xa3, 0xe8), Quad(0xa9, 0x9f, 0x9d, 0xeb), Quad(0x50, 0xf3, 0xaf, 0x57), Quad(0xad, 0xf6, 0x22, 0xaa))
  const KEY6 := State(Quad(0x5e, 0x39, 0x0f, 0x7d), Quad(0xf7, 0xa6, 0x92, 0x96), Quad(0xa7, 0x55, 0x3d, 0xc1), Quad(0x0a, 0xa3, 0x1f, 0x6b))
  const KEY7 := State(Quad(0x14, 0xf9, 0x70, 0x1a), Quad(0xe3, 0x5f, 0xe2, 0x8c), Quad(0x44, 0x0a, 0xdf, 0x4d), Quad(0x4e, 0xa9, 0xc0, 0x26))
  const KEY8 := State(Quad(0x47, 0x43, 0x87, 0x35), Quad(0xa4, 0x1c, 0x65, 0xb9), Quad(0xe0, 0x16, 0xba, 0xf4), Quad(0xae, 0xbf, 0x7a, 0xd2))
  const KEY9 := State(Quad(0x54, 0x99, 0x32, 0xd1), Quad(0xf0, 0x85, 0x57, 0x68), Quad(0x10, 0x93, 0xed, 0x9c), Quad(0xbe, 0x2c, 0x97, 0x4e))
  const KEY10 := State(Quad(0x13, 0x11, 0x1d, 0x7f), Quad(0xe3, 0x94, 0x4a, 0x17), Quad(0xf3, 0x07, 0xa7, 0x8b), Quad(0x4d, 0x2b, 0x30, 0xc5))

  const STATE0 := State(Quad(0x00, 0x10, 0x20, 0x30), Quad(0x40, 0x50, 0x60, 0x70), Quad(0x80, 0x90, 0xa0, 0xb0), Quad(0xc0, 0xd0, 0xe0, 0xf0))
  const STATE1 := State(Quad(0x89, 0xd8, 0x10, 0xe8), Quad(0x85, 0x5a, 0xce, 0x68), Quad(0x2d, 0x18, 0x43, 0xd8), Quad(0xcb, 0x12, 0x8f, 0xe4))
  const STATE2 := State(Quad(0x49, 0x15, 0x59, 0x8f), Quad(0x55, 0xe5, 0xd7, 0xa0), Quad(0xda, 0xca, 0x94, 0xfa), Quad(0x1f, 0x0a, 0x63, 0xf7))
  const STATE3 := State(Quad(0xfa, 0x63, 0x6a, 0x28), Quad(0x25, 0xb3, 0x39, 0xc9), Quad(0x40, 0x66, 0x8a, 0x31), Quad(0x57, 0x24, 0x4d, 0x17))
  const STATE4 := State(Quad(0x24, 0x72, 0x40, 0x23), Quad(0x69, 0x66, 0xb3, 0xfa), Quad(0x6e, 0xd2, 0x75, 0x32), Quad(0x88, 0x42, 0x5b, 0x6c))
  const STATE5 := State(Quad(0xc8, 0x16, 0x77, 0xbc), Quad(0x9b, 0x7a, 0xc9, 0x3b), Quad(0x25, 0x02, 0x79, 0x92), Quad(0xb0, 0x26, 0x19, 0x96))
  const STATE6 := State(Quad(0xc6, 0x2f, 0xe1, 0x09), Quad(0xf7, 0x5e, 0xed, 0xc3), Quad(0xcc, 0x79, 0x39, 0x5d), Quad(0x84, 0xf9, 0xcf, 0x5d))
  const STATE7 := State(Quad(0xd1, 0x87, 0x6c, 0x0f), Quad(0x79, 0xc4, 0x30, 0x0a), Quad(0xb4, 0x55, 0x94, 0xad), Quad(0xd6, 0x6f, 0xf4, 0x1f))
  const STATE8 := State(Quad(0xfd, 0xe3, 0xba, 0xd2), Quad(0x05, 0xe5, 0xd0, 0xd7), Quad(0x35, 0x47, 0x96, 0x4e), Quad(0xf1, 0xfe, 0x37, 0xf1))
  const STATE9 := State(Quad(0xbd, 0x6e, 0x7c, 0x3d), Quad(0xf2, 0xb5, 0x77, 0x9e), Quad(0x0b, 0x61, 0x21, 0x6e), Quad(0x8b, 0x10, 0xb6, 0x89))
  const STATE10 := State(Quad(0x69, 0xc4, 0xe0, 0xd8), Quad(0x6a, 0x7b, 0x04, 0x30), Quad(0xd8, 0xcd, 0xb7, 0x80), Quad(0x70, 0xb4, 0xc5, 0x5a))

  lemma Key0()
    ensures KeyWords(Bytes(KEY0), 0, KEY0)
  {
    hide *;
    NrIsTen();
    BytesAre(KEY0);
    var key := Bytes(KEY0);
    GivenWord(key, 0, KEY0.p); GivenWord(key, 1, KEY0.q); GivenWord(key, 2, KEY0.r); GivenWord(key, 3, KEY0.s);
    KeyWordsIs(key, 0, KEY0);
  }

  lemma NrIsTen()
    ensures NR == 10
  {
  }

  /** The first four words are the key. */
  lemma GivenWord(key: seq<byte>, i: nat, q: Quad)
    requires |key| == 16 && i < 4
    requires key[4 * i] == Nat(q.a) && key[4 * i + 1] == Nat(q.b) && key[4 * i + 2] == Nat(q.c) && key[4 * i + 3] == Nat(q.d)
    ensures WORDS == 44 && Schedule(key, i) == WordOf(q)
  {
    hide Nat;
    WordAt(q);
  }

  lemma Key1()
    ensures KeyWords(Bytes(KEY0), 1, KEY1)
  {
    hide KeyWords; hide Bytes;
    Key0();
    NextKey(Bytes(KEY0), 0, KEY0, Quad(0xd7, 0xab, 0x76, 0xfe), 0x01, Quad(0xd6, 0xab, 0x76, 0xfe), KEY1);
  }

  lemma Key2()
    ensures KeyWords(Bytes(KEY0), 2, KEY2)
  {
    hide KeyWords; hide Bytes;
    Key1();
    NextKey(Bytes(KEY0), 1, KEY1, Quad(0x62, 0x38, 0xbb, 0xf6), 0x02, Quad(0x60, 0x38, 0xbb, 0xf6), KEY2);
  }

  lemma Key3()
    ensures KeyWords(Bytes(KEY0), 3, KEY3)
  {
    hide KeyWords; hide Bytes;
    Key2();
    NextKey(Bytes(KEY0), 2, KEY2, Quad(0x04, 0x6d, 0xbb, 0x45), 0x04, Quad(0x00, 0x6d, 0xbb, 0x45), KEY3);
  }

  lemma Key4()
    ensures KeyWords(Bytes(KEY0), 4, KEY4)
  {
    hide KeyWords; hide Bytes;
    Key3();
    NextKey(Bytes(KEY0), 3, KEY3, Quad(0xf9, 0x08, 0x83, 0xf2), 0x08, Quad(0xf1, 0x08, 0x83, 0xf2), KEY4);
  }

  lemma Key5()
    ensures KeyWords(Bytes(KEY0), 5, KEY5)
  {
    hide KeyWords; hide Bytes;
    Key4();
    NextKey(Bytes(KEY0), 4, KEY4, Quad(0x6b, 0x5d, 0x54, 0x54), 0x10, Quad(0x7b, 0x5d, 0x54, 0x54), KEY5);
  }

  lemma Key6()
    ensures KeyWords(Bytes(KEY0), 6, KEY6)
  {
    hide KeyWords; hide Bytes;
    Key5();
    NextKey(Bytes(KEY0), 5, KEY5, Quad(0x42, 0x93, 0xac, 0x95), 0x20, Quad(0x62, 0x93, 0xac, 0x95), KEY6);
  }

  lemma Key7()
    ensures KeyWords(Bytes(KEY0), 7, KEY7)
  {
    hide KeyWords; hide Bytes;
    Key6();
    NextKey(Bytes(KEY0), 6, KEY6, Quad(0x0a, 0xc0, 0x7f, 0x67), 0x40, Quad(0x4a, 0xc0, 0x7f, 0x67), KEY7);
  }

  lemma Key8()
    ensures KeyWords(Bytes(KEY0), 8, KEY8)
  {
    hide KeyWords; hide Bytes;
    Key7();
    NextKey(Bytes(KEY0), 7, KEY7, Quad(0xd3, 0xba, 0xf7, 0x2f), 0x80, Quad(0x53, 0xba, 0xf7, 0x2f), KEY8);
  }

  lemma Key9()
    ensures KeyWords(Bytes(KEY0), 9, KEY9)
  {
    hide KeyWords; hide Bytes;
    Key8();
    NextKey(Bytes(KEY0), 8, KEY8, Quad(0x08, 0xda, 0xb5, 0xe4), 0x1b, Quad(0x13, 0xda, 0xb5, 0xe4), KEY9);
  }

  lemma Key10()
    ensures KeyWords(Bytes(KEY0), 10, KEY10)
  {
    hide KeyWords; hide Bytes;
    Key9();
    NextKey(Bytes(KEY0), 9, KEY9, Quad(0x71, 0x88, 0x2f, 0xae), 0x36, Quad(0x47, 0x88, 0x2f, 0xae), KEY10);
  }

  lemma Round0()
    ensures After(Bytes(TEXT), Expansion(Bytes(KEY0)), 0) == Bytes(STATE0)
  {
    hide KeyWords; hide Bytes;
    Key0();
    KeyWordsAre(Bytes(KEY0), 0, KEY0);
    AddedIs(TEXT, KEY0, STATE0);
    hide XorBlock; hide Expansion; hide RoundKey;
  }

  lemma LeftSubs1()
    ensures LeftSubs(STATE0, Quad(0x63, 0x53, 0xe0, 0x8c), Quad(0x09, 0x60, 0xe1, 0x04))
  {
  }

  lemma RightSubs1()
    ensures RightSubs(STATE0, Quad(0xcd, 0x70, 0xb7, 0x51), Quad(0xba, 0xca, 0xd0, 0xe7))
  {
  }

  lemma Round1()
    ensures After(Bytes(TEXT), Expansion(Bytes(KEY0)), 1) == Bytes(STATE1)
  {
    hide KeyWords; hide Bytes; hide LeftSubs; hide RightSubs; hide After; hide RoundKey; hide Expansion;
    Round0(); Key1(); LeftSubs1(); RightSubs1();
    KeyWordsAre(Bytes(KEY0), 1, KEY1);
    var u := State(Quad(0x63, 0x53, 0xe0, 0x8c), Quad(0x09, 0x60, 0xe1, 0x04),
                   Quad(0xcd, 0x70, 0xb7, 0x51), Quad(0xba, 0xca, 0xd0, 0xe7));
    Round(Bytes(TEXT), Expansion(Bytes(KEY0)), 1, STATE0, u, KEY1, STATE1);
  }

  lemma LeftSubs2()
    ensures LeftSubs(STATE1, Quad(0xa7, 0xbe, 0x1a, 0x69), Quad(0x97, 0xad, 0x73, 0x9b))
  {
  }

  lemma RightSubs2()
    ensures RightSubs(STATE1, Quad(0xd8, 0xc9, 0xca, 0x45), Quad(0x1f, 0x61, 0x8b, 0x61))
  {
  }

  lemma Round2()
    ensures After(Bytes(TEXT), Expansion(Bytes(KEY0)), 2) == Bytes(STATE2)
  {
    hide KeyWords; hide Bytes; hide LeftSubs; hide RightSubs; hide After; hide RoundKey; hide Expansion;
    Round1(); Key2(); LeftSubs2(); RightSubs2();
    KeyWordsAre(Bytes(KEY0), 2, KEY2);
    var u := State(Quad(0xa7, 0xbe, 0x1a, 0x69), Quad(0x97, 0xad, 0x73, 0x9b),
                   Quad(0xd8, 0xc9, 0xca, 0x45), Quad(0x1f, 0x61, 0x8b, 0x61));
    Round(Bytes(TEXT), Expansion(Bytes(KEY0)), 2, STATE1, u, KEY2, STATE2);
  }

  lemma LeftSubs3()
    ensures LeftSubs(STATE2, Quad(0x3b, 0xd9, 0x22, 0x68), Quad(0xfc, 0x74, 0xfb, 0x73))
  {
  }

  lemma RightSubs3()
    ensures RightSubs(STATE2, Quad(0x57, 0x67, 0xcb, 0xe0), Quad(0xc0, 0x59, 0x0e, 0x2d))
  {
  }

  lemma Round3()
    ensures After(Bytes(TEXT), Expansion(Bytes(KEY0)), 3) == Bytes(STATE3)
  {
    hide KeyWords; hide Bytes; hide LeftSubs; hide RightSubs; hide After; hide RoundKey; hide Expansion;
    Round2(); Key3(); LeftSubs3(); RightSubs3();
    KeyWordsAre(Bytes(KEY0), 3, KEY3);
    var u := State(Quad(0x3b, 0xd9, 0x22, 0x68), Quad(0xfc, 0x74, 0xfb, 0x73),
                   Quad(0x57, 0x67, 0xcb, 0xe0), Quad(0xc0, 0x59, 0x0e, 0x2d));
    Round(Bytes(TEXT), Expansion(Bytes(KEY0)), 3, STATE2, u, KEY3, STATE3);
  }

  lemma LeftSubs4()
    ensures LeftSubs(STATE3, Quad(0x2d, 0x6d, 0x7e, 0xf0), Quad(0x3f, 0x33, 0xe3, 0x34))
  {
  }

  lemma RightSubs4()
    ensures RightSubs(STATE3, Quad(0x09, 0x36, 0x02, 0xdd), Quad(0x5b, 0xfb, 0x12, 0xc7))
  {
  }

  lemma Round4()
    ensures After(Bytes(TEXT), Expansion(Bytes(KEY0)), 4) == Bytes(STATE4)
  {
    hide KeyWords; hide Bytes; hide LeftSubs; hide RightSubs; hide After; hide RoundKey; hide Expansion;
    Round3(); Key4(); LeftSubs4(); RightSubs4();
    KeyWordsAre(Bytes(KEY0), 4, KEY4);
    var u := State(Quad(0x2d, 0x6d, 0x7e, 0xf0), Quad(0x3f, 0x33, 0xe3, 0x34),
                   Quad(0x09, 0x36, 0x02, 0xdd), Quad(0x5b, 0xfb, 0x12, 0xc7));
    Round(Bytes(TEXT), Expansion(Bytes(KEY0)), 4, STATE3, u, KEY4, STATE4);
  }

  lemma LeftSubs5()
    ensures LeftSubs(STATE4, Quad(0x36, 0x33, 0x9d, 0x50), Quad(0xf9, 0xb5, 0x39, 0x26))
  {
  }

  lemma RightSubs5()
    ensures RightSubs(STATE4, Quad(0x9f, 0x2c, 0x09, 0x2d), Quad(0xc4, 0x40, 0x6d, 0x23))
  {
  }

  lemma Round5()
    ensures After(Bytes(TEXT), Expansion(Bytes(KEY0)), 5) == Bytes(STATE5)
  {
    hide KeyWords; hide Bytes; hide LeftSubs; hide RightSubs; hide After; hide RoundKey; hide Expansion;
    Round4(); Key5(); LeftSubs5(); RightSubs5();
    KeyWordsAre(Bytes(KEY0), 5, KEY5);
    var u := State(Quad(0x36, 0x33, 0x9d, 0x50), Quad(0xf9, 0xb5, 0x39, 0x26),
                   Quad(0x9f, 0x2c, 0x09, 0x2d), Quad(0xc4, 0x40, 0x6d, 0x23));
    Round(Bytes(TEXT), Expansion(Bytes(KEY0)), 5, STATE4, u, KEY5, STATE5);
  }

  lemma LeftSubs6()
    ensures LeftSubs(STATE5, Quad(0xe8, 0xda, 0xb6, 0x90), Quad(0x14, 0x77, 0xd4, 0x65))
  {
  }

  lemma RightSubs6()
    ensures RightSubs(STATE5, Quad(0x3f, 0xf7, 0xf5, 0xe2), Quad(0xe7, 0x47, 0xdd, 0x4f))
  {
  }

  lemma Round6()
    ensures After(Bytes(TEXT), Expansion(Bytes(KEY0)), 6) == Bytes(STATE6)
  {
    hide KeyWords; hide Bytes; hide LeftSubs; hide RightSubs; hide After; hide RoundKey; hide Expansion;
    Round5(); Key6(); LeftSubs6(); RightSubs6();
    KeyWordsAre(Bytes(KEY0), 6, KEY6);
    var u := State(Quad(0xe8, 0xda, 0xb6, 0x90), Quad(0x14, 0x77, 0xd4, 0x65),
                   Quad(0x3f, 0xf7, 0xf5, 0xe2), Quad(0xe7, 0x47, 0xdd, 0x4f));
    Round(Bytes(TEXT), Expansion(Bytes(KEY0)), 6, STATE5, u, KEY6, STATE6);
  }

  lemma LeftSubs7()
    ensures LeftSubs(STATE6, Quad(0xb4, 0x58, 0x12, 0x4c), Quad(0x68, 0xb6, 0x8a, 0x01))
  {
  }

  lemma RightSubs7()
    ensures RightSubs(STATE6, Quad(0x4b, 0x99, 0xf8, 0x2e), Quad(0x5f, 0x15, 0x55, 0x4c))
  {
  }

  lemma Round7()
    ensures After(Bytes(TEXT), Expansion(Bytes(KEY0)), 7) == Bytes(STATE7)
  {
    hide KeyWords; hide Bytes; hide LeftSubs; hide RightSubs; hide After; hide RoundKey; hide Expansion;
    Round6(); Key7(); LeftSubs7(); RightSubs7();
    KeyWordsAre(Bytes(KEY0), 7, KEY7);
    var u := State(Quad(0xb4, 0x58, 0x12, 0x4c), Quad(0x68, 0xb6, 0x8a, 0x01),
                   Quad(0x4b, 0x99, 0xf8, 0x2e), Quad(0x5f, 0x15, 0x55, 0x4c));
    Round(Bytes(TEXT), Expansion(Bytes(KEY0)), 7, STATE6, u, KEY7, STATE7);
  }

  lemma LeftSubs8()
    ensures LeftSubs(STATE7, Quad(0x3e, 0x1c, 0x22, 0xc0), Quad(0xb6, 0xfc, 0xbf, 0x76))
  {
  }

  lemma RightSubs8()
    ensures RightSubs(STATE7, Quad(0x8d, 0xa8, 0x50, 0x67), Quad(0xf6, 0x17, 0x04, 0x95))
  {
  }

  lemma Round8()
    ensures After(Bytes(TEXT), Expansion(Bytes(KEY0)), 8) == Bytes(STATE8)
  {
    hide KeyWords; hide Bytes; hide LeftSubs; hide RightSubs; hide After; hide RoundKey; hide Expansion;
    Round7(); Key8(); LeftSubs8(); RightSubs8();
    KeyWordsAre(Bytes(KEY0), 8, KEY8);
    var u := State(Quad(0x3e, 0x1c, 0x22, 0xc0), Quad(0xb6, 0xfc, 0xbf, 0x76),
                   Quad(0x8d, 0xa8, 0x50, 0x67), Quad(0xf6, 0x17, 0x04, 0x95));
    Round(Bytes(TEXT), Expansion(Bytes(KEY0)), 8, STATE7, u, KEY8, STATE8);
  }

  lemma LeftSubs9()
    ensures LeftSubs(STATE8, Quad(0x54, 0xd9, 0x90, 0xa1), Quad(0x6b, 0xa0, 0x9a, 0xb5))
  {
  }

  lemma RightSubs9()
    ensures RightSubs(STATE8, Quad(0x96, 0xbb, 0xf4, 0x0e), Quad(0xa1, 0x11, 0x70, 0x2f))
  {
  }

  lemma Round9()
    ensures After(Bytes(TEXT), Expansion(Bytes(KEY0)), 9) == Bytes(STATE9)
  {
    hide KeyWords; hide Bytes; hide LeftSubs; hide RightSubs; hide After; hide RoundKey; hide Expansion;
    Round8(); Key9(); LeftSubs9(); RightSubs9();
    KeyWordsAre(Bytes(KEY0), 9, KEY9);
    var u := State(Quad(0x54, 0xd9, 0x90, 0xa1), Quad(0x6b, 0xa0, 0x9a, 0xb5),
                   Quad(0x96, 0xbb, 0xf4, 0x0e), Quad(0xa1, 0x11, 0x70, 0x2f));
    Round(Bytes(TEXT), Expansion(Bytes(KEY0)), 9, STATE8, u, KEY9, STATE9);
  }

  lemma LeftSubs10()
    ensures LeftSubs(STATE9, Quad(0x7a, 0xd5, 0xfd, 0xa7), Quad(0x89, 0xef, 0x4e, 0x27))
  {
  }

  lemma RightSubs10()
    ensures RightSubs(STATE9, Quad(0x2b, 0xca, 0x10, 0x0b), Quad(0x3d, 0x9f, 0xf5, 0x9f))
  {
  }

  function ExampleKey(): (r: seq<byte>)
    ensures |r| == 16
  {
    [0x00, 0x01, 0x02, 0x03, 0x04, 0x05, 0x06, 0x07, 0x08, 0x09, 0x0a, 0x0b, 0x0c, 0x0d, 0x0e, 0x0f]
  }

  function ExampleText(): (r: seq<byte>)
    ensures |r| == 16
  {
    [0x00, 0x11, 0x22, 0x33, 0x44, 0x55, 0x66, 0x77, 0x88, 0x99, 0xaa, 0xbb, 0xcc, 0xdd, 0xee, 0xff]
  }

  function ExampleResult(): (r: seq<byte>)
    ensures |r| == 16
  {
    [0x69, 0xc4, 0xe0, 0xd8, 0x6a, 0x7b, 0x04, 0x30, 0xd8, 0xcd, 0xb7, 0x80, 0x70, 0xb4, 0xc5, 0x5a]
  }

  lemma ExampleBytes()
    ensures Bytes(KEY0) == ExampleKey() && Bytes(TEXT) == ExampleText() && Bytes(STATE10) == ExampleResult()
  {
    KeyBytes(); TextBytes(); ResultBytes();
  }

  lemma KeyBytes()
    ensures Bytes(KEY0) == ExampleKey()
  {
    BytesAre(KEY0);
    hide Bytes;
    Sixteen(Bytes(KEY0), ExampleKey());
  }

  lemma TextBytes()
    ensures Bytes(TEXT) == ExampleText()
  {
    BytesAre(TEXT);
    hide Bytes;
    Sixteen(Bytes(TEXT), ExampleText());
  }

  lemma ResultBytes()
    ensures Bytes(STATE10) == ExampleResult()
  {
    BytesAre(STATE10);
    hide Bytes;
    Sixteen(Bytes(STATE10), ExampleResult());
  }

  lemma LastRound(u: State)
    requires Subs(STATE9, u) && AddedAll(u, KEY10, STATE10)
    ensures CipherOf(Bytes(TEXT), Expansion(Bytes(KEY0))) == Bytes(STATE10)
  {
    hide *;
    CipherIs(Bytes(TEXT), Expansion(Bytes(KEY0)));
    Round9(); Key10();
    KeyWordsAre(Bytes(KEY0), 10, KEY10);
    SubsIs(STATE9, u);
    AddedIs(u, KEY10, STATE10);
  }

  lemma CipherIs(b: seq<byte>, rk: seq<byte>)
    requires |b| == 16 && |rk| == ROUND_KEY_SIZE
    ensures NR == 10 && CipherOf(b, rk) == XorBlock(Shifted(Substituted(After(b, rk, 9))), RoundKey(rk, 10))
  {
    hide After; hide XorBlock; hide Shifted; hide Substituted; hide RoundKey;
  }

  /** Appendix C.1 of FIPS 197. */
  lemma ExampleCipher()
    ensures CipherOf(ExampleText(), Expansion(ExampleKey())) == ExampleResult()
  {
    hide Bytes; hide LeftSubs; hide RightSubs; hide CipherOf; hide Expansion; hide ExampleKey; hide ExampleText; hide ExampleResult;
    ExampleBytes();
    LeftSubs10(); RightSubs10();
    LastRound(State(Quad(0x7a, 0xd5, 0xfd, 0xa7), Quad(0x89, 0xef, 0x4e, 0x27),
                    Quad(0x2b, 0xca, 0x10, 0x0b), Quad(0x3d, 0x9f, 0xf5, 0x9f)));
  }
}
