/** Bob Jenkins's hash of utils/hash.c: 32-bit words, wrapping arithmetic, twelve key bytes at a time. */
module JenkinsHash {

  type Byte = bv8
  type Word = bv32

  /** The internal state of hash(). */
  datatype State = State(a: Word, b: Word, c: Word)

  const GOLDEN_RATIO: Word := 0x9e3779b9
  const BLOCK: nat := 12

  // The operators of uint32_t. Proofs that only need equal terms hide their bodies.

  function Add(x: Word, y: Word): Word {
    x + y
  }

  function Sub(x: Word, y: Word): Word {
    x - y
  }

  function Shl(x: Word, n: nat): Word
    requires n < 32
  {
    x << n
  }

  function Shr(x: Word, n: nat): Word
    requires n < 32
  {
    x >> n
  }

  function Less(x: Word, y: Word, z: Word): Word {
    Sub(Sub(x, y), z)
  }

  function Plus(x: Word, y: Word, z: Word): Word {
    Add(Add(x, z), y)
  }

  function Xor(x: Word, y: Word): Word {
    x ^ y
  }

  lemma XorTwice(x: Word, y: Word)
    ensures Xor(Xor(x, y), y) == x
  {
  }

  lemma SubOfAdd(x: Word, y: Word)
    ensures Sub(Add(x, y), x) == y
    ensures Sub(Add(x, y), y) == x
  {
    calc {
      Sub(Add(x, y), x);
      Sub(x + y, x);
      x + y - x;
      y;
    }
    calc {
      Sub(Add(x, y), y);
      Sub(x + y, y);
      x + y - y;
      x;
    }
  }

  lemma AddOfSub(x: Word, y: Word)
    ensures Add(Sub(x, y), y) == x
  {
    calc {
      Add(Sub(x, y), y);
      Add(x - y, y);
      x - y + y;
      x;
    }
  }

  lemma LessThenPlus(x: Word, y: Word, z: Word)
    ensures Plus(Less(x, y, z), y, z) == x
    ensures Less(Plus(x, y, z), y, z) == x
  {
    hide Add, Sub;
    AddOfSub(Sub(x, y), z);
    AddOfSub(x, y);
    SubOfAdd(Add(x, z), y);
    SubOfAdd(x, z);
  }

  /** One line of mix(): x loses y and z and is xored with w. */
  function Line(x: Word, y: Word, z: Word, w: Word): Word {
    Xor(Less(x, y, z), w)
  }

  function Unline(v: Word, y: Word, z: Word, w: Word): Word {
    Plus(Xor(v, w), y, z)
  }

  lemma LineUndone(x: Word, y: Word, z: Word, w: Word)
    ensures Unline(Line(x, y, z, w), y, z, w) == x
    ensures Line(Unline(x, y, z, w), y, z, w) == x
  {
    hide Less, Plus, Xor;
    XorTwice(Less(x, y, z), w);
    LessThenPlus(x, y, z);
    LessThenPlus(Xor(x, w), y, z);
    XorTwice(x, w);
  }

  /** One third of mix(): each word in turn loses the other two and is xored with a shift of one. */
  function Round(s: State, p: nat, q: nat, r: nat): State
    requires p < 32 && q < 32 && r < 32
  {
    var a := Line(s.a, s.b, s.c, Shr(s.c, p));
    var b := Line(s.b, s.c, a, Shl(a, q));
    var c := Line(s.c, a, b, Shr(b, r));
    State(a, b, c)
  }

  /** The round, undone from its last word to its first. */
  function Unround(s: State, p: nat, q: nat, r: nat): State
    requires p < 32 && q < 32 && r < 32
  {
    var c := Unline(s.c, s.a, s.b, Shr(s.b, r));
    var b := Unline(s.b, c, s.a, Shl(s.a, q));
    var a := Unline(s.a, b, c, Shr(c, p));
    State(a, b, c)
  }

  function Mix(s: State): State {
    Round(Round(Round(s, 13, 8, 13), 12, 16, 5), 3, 10, 15)
  }

  function Unmix(s: State): State {
    Unround(Unround(Unround(s, 3, 10, 15), 12, 16, 5), 13, 8, 13)
  }

  lemma RoundUndone(s: State, p: nat, q: nat, r: nat)
    requires p < 32 && q < 32 && r < 32
    ensures Unround(Round(s, p, q, r), p, q, r) == s
  {
    hide Line, Unline, Shl, Shr;
    var t := Round(s, p, q, r);
    LineUndone(s.c, t.a, t.b, Shr(t.b, r));
    LineUndone(s.b, s.c, t.a, Shl(t.a, q));
    LineUndone(s.a, s.b, s.c, Shr(s.c, p));
  }

  lemma RoundRedone(s: State, p: nat, q: nat, r: nat)
    requires p < 32 && q < 32 && r < 32
    ensures Round(Unround(s, p, q, r), p, q, r) == s
  {
    hide Line, Unline, Shl, Shr;
    var t := Unround(s, p, q, r);
    LineUndone(s.a, t.b, t.c, Shr(t.c, p));
    LineUndone(s.b, t.c, s.a, Shl(s.a, q));
    LineUndone(s.c, s.a, s.b, Shr(s.b, r));
  }

  /** mix() is a bijection on triples of words, and Unmix is its inverse. */
  lemma MixIsBijective(s: State)
    ensures Unmix(Mix(s)) == s
    ensures Mix(Unmix(s)) == s
  {
    hide Round, Unround;
    RoundUndone(s, 13, 8, 13);
    RoundUndone(Round(s, 13, 8, 13), 12, 16, 5);
    RoundUndone(Round(Round(s, 13, 8, 13), 12, 16, 5), 3, 10, 15);
    RoundRedone(s, 3, 10, 15);
    RoundRedone(Unround(s, 3, 10, 15), 12, 16, 5);
    RoundRedone(Unround(Unround(s, 3, 10, 15), 12, 16, 5), 13, 8, 13);
  }

  lemma MixIsInjective(s: State, t: State)
    ensures Mix(s) == Mix(t) <==> s == t
  {
    MixIsBijective(s);
    MixIsBijective(t);
    hide Mix, Unmix;
  }

  // ---- key bytes as words

  /** Four bytes as a word, lowest first. */
  function Pack(w: Byte, x: Byte, y: Byte, z: Byte): Word {
    (w as Word) + ((x as Word) << 8) + ((y as Word) << 16) + ((z as Word) << 24)
  }

  lemma PackIsInjective(w: Byte, x: Byte, y: Byte, z: Byte, w': Byte, x': Byte, y': Byte, z': Byte)
    requires Pack(w, x, y, z) == Pack(w', x', y', z')
    ensures w == w' && x == x' && y == y' && z == z'
  {
  }

  lemma AddCancels(x: Word, y: Word, y': Word)
    requires Add(x, y) == Add(x, y')
    ensures y == y'
  {
    hide Add, Sub;
    SubOfAdd(x, y);
    SubOfAdd(x, y');
  }

  lemma AddIsInjective(x: Word, x': Word, y: Word)
    requires Add(x, y) == Add(x', y)
    ensures x == x'
  {
    hide Add, Sub;
    SubOfAdd(x, y);
    SubOfAdd(x', y);
  }

  /** Byte j of a key part, or 0 past its end. */
  function ByteAt(k: seq<Byte>, j: nat): Byte {
    if j < |k| then k[j] else 0
  }

  function WordAt(k: seq<Byte>, j: nat): Word {
    Pack(ByteAt(k, j), ByteAt(k, j + 1), ByteAt(k, j + 2), ByteAt(k, j + 3))
  }

  /** The last three bytes of a tail; the lowest byte of c is reserved for the length. */
  function TailWord(k: seq<Byte>): Word {
    Pack(0, ByteAt(k, 8), ByteAt(k, 9), ByteAt(k, 10))
  }

  // ---- the hash as a function

  /** One turn of the block loop. */
  function Absorb(s: State, k: seq<Byte>): State {
    Mix(State(Add(s.a, WordAt(k, 0)), Add(s.b, WordAt(k, 4)), Add(s.c, WordAt(k, 8))))
  }

  /** The end of hash(): the length and the last 11 bytes. */
  function Finish(s: State, k: seq<Byte>, length: Word): State {
    Mix(State(Add(s.a, WordAt(k, 0)), Add(s.b, WordAt(k, 4)), Add(Add(s.c, length), TailWord(k))))
  }

  /** The state in which hash() leaves its words for the rest of a key. */
  function Run(s: State, k: seq<Byte>, length: Word): State
    decreases |k|
  {
    if |k| < BLOCK then Finish(s, k, length) else Run(Absorb(s, k[..BLOCK]), k[BLOCK..], length)
  }

  function Start(initval: Word): State {
    State(GOLDEN_RATIO, GOLDEN_RATIO, initval)
  }

  /** len = (uint32_t)length: only so many bytes of a key are hashed. */
  function HashedPart(k: seq<Byte>): seq<Byte> {
    k[..|k| % 0x1_0000_0000]
  }

  /** The conversion of n to uint32_t: counting up from 0, with wrap-around. */
  function Truncated(n: nat): Word
  {
    if n == 0 then 0 else Add(Truncated(n - 1), 1)
  }

  function LengthWord(k: seq<Byte>): Word {
    Truncated(|k|)
  }

  /** The final (a, b, c) of hash(). */
  function FinalState(k: seq<Byte>, initval: Word): State {
    Run(Start(initval), HashedPart(k), LengthWord(k))
  }

  function Hash(k: seq<Byte>, initval: Word): Word {
    FinalState(k, initval).c
  }

  // ---- distinct states stay distinct, distinct bytes make distinct states

  lemma EqualWordsEqualBytes(k: seq<Byte>, k': seq<Byte>, j: nat)
    requires WordAt(k, j) == WordAt(k', j)
    ensures forall i: nat :: j <= i < j + 4 ==> ByteAt(k, i) == ByteAt(k', i)
  {
    hide Pack;
    PackIsInjective(ByteAt(k, j), ByteAt(k, j + 1), ByteAt(k, j + 2), ByteAt(k, j + 3),
                    ByteAt(k', j), ByteAt(k', j + 1), ByteAt(k', j + 2), ByteAt(k', j + 3));
  }

  lemma SameBytes(k: seq<Byte>, k': seq<Byte>, n: nat)
    requires |k| == |k'| <= n
    requires forall i: nat :: i < n ==> ByteAt(k, i) == ByteAt(k', i)
    ensures k == k'
  {
    forall i | 0 <= i < |k|
      ensures k[i] == k'[i]
    {
      assert ByteAt(k, i) == ByteAt(k', i);
    }
  }

  lemma SameWordsSameBlock(k: seq<Byte>, k': seq<Byte>)
    requires |k| == |k'| == BLOCK
    requires WordAt(k, 0) == WordAt(k', 0) && WordAt(k, 4) == WordAt(k', 4) && WordAt(k, 8) == WordAt(k', 8)
    ensures k == k'
  {
    hide WordAt, ByteAt, Pack, TailWord;
    EqualWordsEqualBytes(k, k', 0);
    EqualWordsEqualBytes(k, k', 4);
    EqualWordsEqualBytes(k, k', 8);
    SameBytes(k, k', 12);
  }

  lemma EqualTailWordsEqualBytes(k: seq<Byte>, k': seq<Byte>)
    requires TailWord(k) == TailWord(k')
    ensures ByteAt(k, 8) == ByteAt(k', 8) && ByteAt(k, 9) == ByteAt(k', 9) && ByteAt(k, 10) == ByteAt(k', 10)
  {
    hide Pack, ByteAt;
    PackIsInjective(0, ByteAt(k, 8), ByteAt(k, 9), ByteAt(k, 10), 0, ByteAt(k', 8), ByteAt(k', 9), ByteAt(k', 10));
  }

  lemma SameWordsSameTail(k: seq<Byte>, k': seq<Byte>)
    requires |k| == |k'| < BLOCK
    requires WordAt(k, 0) == WordAt(k', 0) && WordAt(k, 4) == WordAt(k', 4) && TailWord(k) == TailWord(k')
    ensures k == k'
  {
    hide WordAt, ByteAt, Pack, TailWord;
    EqualWordsEqualBytes(k, k', 0);
    EqualWordsEqualBytes(k, k', 4);
    EqualTailWordsEqualBytes(k, k');
    SameBytes(k, k', 11);
  }

  /** Equal states after a block: the three sums that went into mix() were equal. */
  lemma AbsorbedSums(s: State, s': State, k: seq<Byte>, k': seq<Byte>)
    requires Absorb(s, k) == Absorb(s', k')
    ensures Add(s.a, WordAt(k, 0)) == Add(s'.a, WordAt(k', 0))
    ensures Add(s.b, WordAt(k, 4)) == Add(s'.b, WordAt(k', 4))
    ensures Add(s.c, WordAt(k, 8)) == Add(s'.c, WordAt(k', 8))
  {
    hide Mix, Add, WordAt;
    MixIsInjective(State(Add(s.a, WordAt(k, 0)), Add(s.b, WordAt(k, 4)), Add(s.c, WordAt(k, 8))),
                   State(Add(s'.a, WordAt(k', 0)), Add(s'.b, WordAt(k', 4)), Add(s'.c, WordAt(k', 8))));
  }

  lemma FinishedSums(s: State, s': State, k: seq<Byte>, k': seq<Byte>, length: Word)
    requires Finish(s, k, length) == Finish(s', k', length)
    ensures Add(s.a, WordAt(k, 0)) == Add(s'.a, WordAt(k', 0))
    ensures Add(s.b, WordAt(k, 4)) == Add(s'.b, WordAt(k', 4))
    ensures Add(Add(s.c, length), TailWord(k)) == Add(Add(s'.c, length), TailWord(k'))
  {
    hide Mix, Add, WordAt, TailWord;
    MixIsInjective(State(Add(s.a, WordAt(k, 0)), Add(s.b, WordAt(k, 4)), Add(Add(s.c, length), TailWord(k))),
                   State(Add(s'.a, WordAt(k', 0)), Add(s'.b, WordAt(k', 4)), Add(Add(s'.c, length), TailWord(k'))));
  }

  /** For a fixed state, absorbing is injective in the block; for a fixed block, in the state. */
  lemma AbsorbIsInjective(s: State, s': State, k: seq<Byte>, k': seq<Byte>)
    requires |k| == |k'| == BLOCK && Absorb(s, k) == Absorb(s', k')
    ensures s == s' ==> k == k'
    ensures k == k' ==> s == s'
  {
    hide *;
    AbsorbedSums(s, s', k, k');
    if s == s' {
      AddCancels(s.a, WordAt(k, 0), WordAt(k', 0));
      AddCancels(s.b, WordAt(k, 4), WordAt(k', 4));
      AddCancels(s.c, WordAt(k, 8), WordAt(k', 8));
      SameWordsSameBlock(k, k');
    }
    if k == k' {
      AddIsInjective(s.a, s'.a, WordAt(k, 0));
      AddIsInjective(s.b, s'.b, WordAt(k, 4));
      AddIsInjective(s.c, s'.c, WordAt(k, 8));
    }
  }

  /** The same two facts for the end of the hash. */
  lemma FinishIsInjective(s: State, s': State, k: seq<Byte>, k': seq<Byte>, length: Word)
    requires |k| == |k'| < BLOCK && Finish(s, k, length) == Finish(s', k', length)
    ensures s == s' ==> k == k'
    ensures k == k' ==> s == s'
  {
    hide *;
    var c, c' := Add(s.c, length), Add(s'.c, length);
    FinishedSums(s, s', k, k', length);
    if s == s' {
      AddCancels(s.a, WordAt(k, 0), WordAt(k', 0));
      AddCancels(s.b, WordAt(k, 4), WordAt(k', 4));
      AddCancels(c, TailWord(k), TailWord(k'));
      SameWordsSameTail(k, k');
    }
    if k == k' {
      AddIsInjective(s.a, s'.a, WordAt(k, 0));
      AddIsInjective(s.b, s'.b, WordAt(k, 4));
      AddIsInjective(c, c', TailWord(k));
      AddIsInjective(s.c, s'.c, length);
    }
  }

  /** Different states stay different whatever common bytes follow. */
  lemma {:induction false} RunKeepsDifference(s: State, s': State, k: seq<Byte>, length: Word)
    requires s != s'
    ensures Run(s, k, length) != Run(s', k, length)
    decreases |k|
  {
    hide Absorb, Finish;
    if |k| < BLOCK {
      if Finish(s, k, length) == Finish(s', k, length) {
        FinishIsInjective(s, s', k, k, length);
      }
    } else {
      var block := k[..BLOCK];
      if Absorb(s, block) == Absorb(s', block) {
        AbsorbIsInjective(s, s', block, block);
      } else {
        RunKeepsDifference(Absorb(s, block), Absorb(s', block), k[BLOCK..], length);
      }
    }
  }

  /** k and k' differ, and only inside the 12-byte part that starts at 12 * n (a block, or the tail). */
  ghost predicate DifferOnlyInPart(k: seq<Byte>, k': seq<Byte>, n: nat) {
    && |k| == |k'| && k != k'
    && forall i :: 0 <= i < |k| && !(BLOCK * n <= i < BLOCK * n + BLOCK) ==> k[i] == k'[i]
  }

  lemma {:induction false} DifferenceReachesTheEnd(s: State, k: seq<Byte>, k': seq<Byte>, n: nat, length: Word)
    requires DifferOnlyInPart(k, k', n)
    ensures Run(s, k, length) != Run(s, k', length)
    decreases n
  {
    hide Absorb, Finish;
    if |k| < BLOCK {
      if Finish(s, k, length) == Finish(s, k', length) {
        FinishIsInjective(s, s, k, k', length);
      }
    } else {
      var head, head', rest, rest' := k[..BLOCK], k'[..BLOCK], k[BLOCK..], k'[BLOCK..];
      assert k == head + rest && k' == head' + rest';
      if n == 0 {
        assert rest == rest';
        if Absorb(s, head) == Absorb(s, head') {
          AbsorbIsInjective(s, s, head, head');
        } else {
          RunKeepsDifference(Absorb(s, head), Absorb(s, head'), rest, length);
        }
      } else {
        assert head == head';
        DifferenceReachesTheEnd(Absorb(s, head), rest, rest', n - 1, length);
      }
    }
  }

  /** Two keys of one length that differ only in one block, or only in the tail, never share a final state. */
  lemma OnePartDifference(k: seq<Byte>, k': seq<Byte>, n: nat, initval: Word)
    requires |k| < 0x1_0000_0000 && DifferOnlyInPart(k, k', n)
    ensures FinalState(k, initval) != FinalState(k', initval)
  {
    assert HashedPart(k) == k && HashedPart(k') == k';
    DifferenceReachesTheEnd(Start(initval), k, k', n, LengthWord(k));
  }

  /** The keys of the library's hash tables are 8 bytes: for them the final state identifies the key. */
  lemma TableKeysNeverCollide(k: seq<Byte>, k': seq<Byte>, initval: Word)
    requires |k| == |k'| == 8
    ensures FinalState(k, initval) == FinalState(k', initval) <==> k == k'
  {
    if k != k' {
      OnePartDifference(k, k', 0, initval);
    }
  }

  /** The seed matters for every key: two seeds never lead to the same final state. */
  lemma SeedsNeverCollide(k: seq<Byte>, initval: Word, initval': Word)
    requires initval != initval'
    ensures FinalState(k, initval) != FinalState(k, initval')
  {
    RunKeepsDifference(Start(initval), Start(initval'), HashedPart(k), LengthWord(k));
  }

  /** Of a key of 2^32 bytes or more, only as many bytes count as its 32-bit length says. */
  lemma OnlyHashedPartCounts(k: seq<Byte>, k': seq<Byte>, initval: Word)
    requires |k| == |k'| && k[..|k| % 0x1_0000_0000] == k'[..|k| % 0x1_0000_0000]
    ensures FinalState(k, initval) == FinalState(k', initval)
  {
  }

  // ---- where the length goes

  /** The state after the whole blocks of a key, and the bytes that are left. */
  function Absorbed(s: State, k: seq<Byte>): State
    decreases |k|
  {
    if |k| < BLOCK then s else Absorbed(Absorb(s, k[..BLOCK]), k[BLOCK..])
  }

  function Tail(k: seq<Byte>): (t: seq<Byte>)
    ensures |t| == |k| % BLOCK
  {
    k[|k| - |k| % BLOCK..]
  }

  lemma {:induction false} RunIsFinish(s: State, k: seq<Byte>, length: Word)
    ensures Run(s, k, length) == Finish(Absorbed(s, k), Tail(k), length)
    decreases |k|
  {
    hide Absorb, Finish;
    if |k| >= BLOCK {
      var rest := k[BLOCK..];
      RunIsFinish(Absorb(s, k[..BLOCK]), rest, length);
      assert |rest| % BLOCK == |k| % BLOCK;
      assert Tail(rest) == Tail(k);
    } else {
      assert Tail(k) == k;
    }
  }

  lemma FinalIsFinish(k: seq<Byte>, initval: Word)
    requires |k| < 0x1_0000_0000
    ensures FinalState(k, initval) == Finish(Absorbed(Start(initval), k), Tail(k), Truncated(|k|))
  {
    hide Run, Finish, Absorbed, Truncated, Start, Tail;
    assert HashedPart(k) == k;
    RunIsFinish(Start(initval), k, LengthWord(k));
  }

  lemma BeforeFinish(s: State, t: seq<Byte>, length: Word)
    ensures Unmix(Finish(s, t, length))
         == State(Add(s.a, WordAt(t, 0)), Add(s.b, WordAt(t, 4)), Add(Add(s.c, length), TailWord(t)))
  {
    hide Add, WordAt, TailWord, Mix, Unmix;
    MixIsBijective(State(Add(s.a, WordAt(t, 0)), Add(s.b, WordAt(t, 4)), Add(Add(s.c, length), TailWord(t))));
  }

  /** What goes into the last mix(): the words so far, the tail bytes, and the number of bytes in all. */
  lemma LengthIsAdded(k: seq<Byte>, initval: Word)
    requires |k| < 0x1_0000_0000
    ensures var before, last := Absorbed(Start(initval), k), Unmix(FinalState(k, initval));
      && last.a == Add(before.a, WordAt(Tail(k), 0))
      && last.b == Add(before.b, WordAt(Tail(k), 4))
      && last.c == Add(Add(before.c, Truncated(|k|)), TailWord(Tail(k)))
  {
    hide *;
    FinalIsFinish(k, initval);
    BeforeFinish(Absorbed(Start(initval), k), Tail(k), Truncated(|k|));
  }

  lemma {:induction false} AbsorbedOfLonger(s: State, k: seq<Byte>, b: Byte)
    requires |k| % BLOCK < BLOCK - 1
    ensures Absorbed(s, k + [b]) == Absorbed(s, k) && Tail(k + [b]) == Tail(k) + [b]
    decreases |k|
  {
    hide Absorb, Tail;
    TailOfLonger(k, b);
    if |k| >= BLOCK {
      assert (k + [b])[..BLOCK] == k[..BLOCK] && (k + [b])[BLOCK..] == k[BLOCK..] + [b];
      AbsorbedOfLonger(Absorb(s, k[..BLOCK]), k[BLOCK..], b);
    }
  }

  lemma TailOfLonger(k: seq<Byte>, b: Byte)
    requires |k| % BLOCK < BLOCK - 1
    ensures Tail(k + [b]) == Tail(k) + [b]
  {
    assert (|k| + 1) % BLOCK == |k| % BLOCK + 1;
  }

  lemma ZeroByteAddsNothing(t: seq<Byte>)
    ensures WordAt(t + [0], 0) == WordAt(t, 0) && WordAt(t + [0], 4) == WordAt(t, 4) && TailWord(t + [0]) == TailWord(t)
  {
    hide Pack;
    assert forall j: nat :: ByteAt(t + [0], j) == ByteAt(t, j);
  }

  lemma NextIsOther(w: Word)
    ensures Add(w, 1) != w
  {
  }

  lemma OneMore(x: Word, y: Word, z: Word)
    ensures Add(Add(x, Add(y, 1)), z) == Add(Add(Add(x, y), z), 1)
  {
    hide *;
    AddReorders(x, y, 1);
    AddReorders(Add(x, y), 1, z);
    AddReorders(1, z, z);
    AddReorders(Add(x, y), z, 1);
  }

  lemma TruncatedNext(n: nat)
    ensures Truncated(n + 1) == Add(Truncated(n), 1)
  {
  }

  /** A zero byte more is the same words with a length greater by one, so the final states differ. */
  lemma PaddingIsSeen(k: seq<Byte>, initval: Word)
    requires |k| % BLOCK < BLOCK - 1 && |k| + 1 < 0x1_0000_0000
    ensures var short, long := Unmix(FinalState(k, initval)), Unmix(FinalState(k + [0], initval));
      long.a == short.a && long.b == short.b && long.c == Add(short.c, 1)
    ensures FinalState(k, initval) != FinalState(k + [0], initval)
  {
    hide *;
    var before := Absorbed(Start(initval), k);
    LengthIsAdded(k, initval);
    LengthIsAdded(k + [0], initval);
    AbsorbedOfLonger(Start(initval), k, 0);
    ZeroByteAddsNothing(Tail(k));
    TruncatedNext(|k|);
    OneMore(before.c, Truncated(|k|), TailWord(Tail(k)));
    NextIsOther(Unmix(FinalState(k, initval)).c);
  }

  lemma LowByte(n: Word, x: Byte, y: Byte, z: Byte)
    requires n <= 0xFF
    ensures Add(Add(0, n), Pack(0, x, y, z)) & 0xFF == n
  {
  }

  lemma SmallTruncated(n: nat)
    requires n < BLOCK
    ensures Truncated(n) <= 0xFF && Truncated(n) as nat == n
  {
    if n > 0 {
      SmallTruncated(n - 1);
    }
  }

  /** For a short key under seed 0, the lowest byte of c before the last mix() is the length. */
  lemma ShortLengthInLowByte(k: seq<Byte>)
    requires |k| < BLOCK
    ensures (Unmix(FinalState(k, 0)).c & 0xFF) as nat == |k|
  {
    hide Add, Pack, Unmix, FinalState, Truncated, WordAt;
    LengthIsAdded(k, 0);
    SmallTruncated(|k|);
    var t := Tail(k);
    LowByte(Truncated(|k|), ByteAt(t, 8), ByteAt(t, 9), ByteAt(t, 10));
  }

  const FIRST_BYTES: seq<Byte> := [1, 2, 3, 4, 5, 6, 7, 8, 9, 10, 11, 12]
  const LAST_BYTES: seq<Byte> := [13, 14, 15, 16, 17, 18, 19, 20, 21, 22, 23]

  lemma MixOfEmpty()
    ensures Mix(State(0x9e3779b9, 0x9e3779b9, 0x00000000)) == State(0x9b2ec03d, 0xdb2b69ae, 0xbd49d10d)
  {
    assert Round(State(0x9e3779b9, 0x9e3779b9, 0x00000000), 13, 8, 13) == State(0x00000000, 0x9e3779b9, 0x61cc77fc);
    assert Round(State(0x00000000, 0x9e3779b9, 0x61cc77fc), 12, 16, 5) == State(0xfffa128c, 0x2efcef31, 0x33a29146);
  }

  lemma MixOfFirst()
    ensures Mix(State(0xa23a7bba, 0xa63e7fbe, 0x0c0b0a09)) == State(0xea31556f, 0x8f02ffea, 0xe58017fb)
  {
    assert Round(State(0xa23a7bba, 0xa63e7fbe, 0x0c0b0a09), 13, 8, 13) == State(0xeff091ab, 0x5ad34f0a, 0xc145ffce);
    assert Round(State(0xeff091ab, 0x5ad34f0a, 0xc145ffce), 12, 16, 5) == State(0xd3db568c, 0x933df8b0, 0x5eb55f57);
  }

  lemma MixOfLast()
    ensures Mix(State(0xfa40637c, 0xa31611fb, 0xfc962d12)) == State(0xaabd0fb4, 0x0b68871d, 0x7aceac8c)
  {
    assert Round(State(0xfa40637c, 0xa31611fb, 0xfc962d12), 13, 8, 13) == State(0x5a93c0de, 0xd82cfa0b, 0xc9d3b34e);
    assert Round(State(0x5a93c0de, 0xd82cfa0b, 0xc9d3b34e), 12, 16, 5) == State(0xb89f8ebe, 0xdb07b7ff, 0x30f4512e);
  }

  lemma FirstWords()
    ensures WordAt(FIRST_BYTES, 0) == 0x04030201 && WordAt(FIRST_BYTES, 4) == 0x08070605
    ensures WordAt(FIRST_BYTES, 8) == 0x0c0b0a09
  {
  }

  lemma LastWords()
    ensures WordAt(LAST_BYTES, 0) == 0x100f0e0d && WordAt(LAST_BYTES, 4) == 0x14131211
    ensures TailWord(LAST_BYTES) == 0x17161500
  {
  }

  lemma NoWords()
    ensures WordAt([], 0) == 0 && WordAt([], 4) == 0 && TailWord([]) == 0
  {
  }

  lemma BytesTogether()
    ensures |FIRST_BYTES + LAST_BYTES| == 23 && (FIRST_BYTES + LAST_BYTES)[..BLOCK] == FIRST_BYTES
    ensures (FIRST_BYTES + LAST_BYTES)[BLOCK..] == LAST_BYTES
    ensures Truncated(0) == 0 && Truncated(23) == 23
  {
    SmallTruncated(11);
  }

  /** Two values of hash(): for no bytes at all, and for 23 bytes, which are one block and a full tail. */
  lemma KnownHashes()
    ensures Hash([], 0) == 0xbd49d10d
    ensures Hash(FIRST_BYTES + LAST_BYTES, 0) == 0x7aceac8c
  {
    hide Mix, WordAt, TailWord, Truncated;
    NoWords();
    MixOfEmpty();
    MixOfFirst();
    MixOfLast();
    FirstWords();
    LastWords();
    BytesTogether();
    FinalIsFinish([], 0);
    FinalIsFinish(FIRST_BYTES + LAST_BYTES, 0);
    assert Absorb(Start(0), FIRST_BYTES) == State(0xea31556f, 0x8f02ffea, 0xe58017fb);
    assert Absorbed(Start(0), FIRST_BYTES + LAST_BYTES) == State(0xea31556f, 0x8f02ffea, 0xe58017fb);
    assert Tail(FIRST_BYTES + LAST_BYTES) == LAST_BYTES;
  }

  // ---- the hash as the source computes it

  /** The macro mix(a, b, c), line by line. */
  method MixWords(a0: Word, b0: Word, c0: Word) returns (a: Word, b: Word, c: Word)
    ensures State(a, b, c) == Mix(State(a0, b0, c0))
  {
    hide Sub, Xor, Shl, Shr;
    a, b, c := a0, b0, c0;
    a := Sub(a, b);
    a := Sub(a, c);
    a := Xor(a, Shr(c, 13));
    b := Sub(b, c);
    b := Sub(b, a);
    b := Xor(b, Shl(a, 8));
    c := Sub(c, a);
    c := Sub(c, b);
    c := Xor(c, Shr(b, 13));
    a := Sub(a, b);
    a := Sub(a, c);
    a := Xor(a, Shr(c, 12));
    b := Sub(b, c);
    b := Sub(b, a);
    b := Xor(b, Shl(a, 16));
    c := Sub(c, a);
    c := Sub(c, b);
    c := Xor(c, Shr(b, 5));
    a := Sub(a, b);
    a := Sub(a, c);
    a := Xor(a, Shr(c, 3));
    b := Sub(b, c);
    b := Sub(b, a);
    b := Xor(b, Shl(a, 10));
    c := Sub(c, a);
    c := Sub(c, b);
    c := Xor(c, Shr(b, 15));
  }

  /** One byte of the tail added to a word. */
  function AddByte(x: Word, b: Byte, shift: nat): Word
    requires shift < 32
  {
    Add(x, Shl(b as Word, shift))
  }

  lemma AddNoByte(x: Word, shift: nat)
    requires shift in {0, 8, 16, 24}
    ensures AddByte(x, 0, shift) == x
  {
  }

  lemma AddReorders(x: Word, y: Word, z: Word)
    ensures Add(Add(x, y), z) == Add(x, Add(y, z))
    ensures Add(x, y) == Add(y, x)
  {
    calc {
      Add(Add(x, y), z);
      Add(x + y, z);
      x + y + z;
      x + (y + z);
      x + Add(y, z);
      Add(x, Add(y, z));
    }
    calc {
      Add(x, y);
      x + y;
      y + x;
      Add(y, x);
    }
  }

  lemma PackByAdds(w: Byte, x: Byte, y: Byte, z: Byte)
    ensures Pack(w, x, y, z)
         == Add(Add(Add(Shl(w as Word, 0), Shl(x as Word, 8)), Shl(y as Word, 16)), Shl(z as Word, 24))
  {
    calc {
      Pack(w, x, y, z);
      (w as Word) + ((x as Word) << 8) + ((y as Word) << 16) + ((z as Word) << 24);
      ((w as Word) << 0) + ((x as Word) << 8) + ((y as Word) << 16) + ((z as Word) << 24);
      Shl(w as Word, 0) + Shl(x as Word, 8) + Shl(y as Word, 16) + Shl(z as Word, 24);
      Add(Shl(w as Word, 0), Shl(x as Word, 8)) + Shl(y as Word, 16) + Shl(z as Word, 24);
      Add(Add(Shl(w as Word, 0), Shl(x as Word, 8)), Shl(y as Word, 16)) + Shl(z as Word, 24);
      Add(Add(Add(Shl(w as Word, 0), Shl(x as Word, 8)), Shl(y as Word, 16)), Shl(z as Word, 24));
    }
  }

  /** Adding four bytes one by one, highest first, is adding the word they make. */
  lemma GatherBytes(v: Word, w: Byte, x: Byte, y: Byte, z: Byte)
    ensures AddByte(AddByte(AddByte(AddByte(v, z, 24), y, 16), x, 8), w, 0) == Add(v, Pack(w, x, y, z))
  {
    PackByAdds(w, x, y, z);
    hide Add, Shl, Pack;
    var b0, b1, b2, b3 := Shl(w as Word, 0), Shl(x as Word, 8), Shl(y as Word, 16), Shl(z as Word, 24);
    AddReorders(Add(Add(v, b3), b2), b1, b0);
    AddReorders(Add(v, b3), b2, Add(b1, b0));
    AddReorders(v, b3, Add(b2, Add(b1, b0)));
    AddReorders(Add(Add(b0, b1), b2), b3, b0);
    AddReorders(Add(b0, b1), b2, b0);
    AddReorders(b0, b1, b0);
  }

  /** The case label j + 1 of the switch: it runs when at least j + 1 bytes are left. */
  function CaseByte(x: Word, t: seq<Byte>, j: nat, shift: nat): Word
    requires shift < 32
  {
    if |t| >= j + 1 then AddByte(x, t[j], shift) else x
  }

  lemma CaseByteAdds(x: Word, t: seq<Byte>, j: nat, shift: nat)
    requires shift in {0, 8, 16, 24}
    ensures CaseByte(x, t, j, shift) == AddByte(x, ByteAt(t, j), shift)
  {
    AddNoByte(x, shift);
  }

  /** The four cases of one word, highest byte first. */
  lemma FallThrough(v: Word, t: seq<Byte>, j: nat)
    ensures CaseByte(CaseByte(CaseByte(CaseByte(v, t, j + 3, 24), t, j + 2, 16), t, j + 1, 8), t, j, 0)
         == Add(v, WordAt(t, j))
  {
    hide AddByte, Add, Pack;
    GatherBytes(v, ByteAt(t, j), ByteAt(t, j + 1), ByteAt(t, j + 2), ByteAt(t, j + 3));
    var x3 := CaseByte(v, t, j + 3, 24);
    var x2 := CaseByte(x3, t, j + 2, 16);
    var x1 := CaseByte(x2, t, j + 1, 8);
    CaseByteAdds(v, t, j + 3, 24);
    CaseByteAdds(x3, t, j + 2, 16);
    CaseByteAdds(x2, t, j + 1, 8);
    CaseByteAdds(x1, t, j, 0);
    hide CaseByte, ByteAt;
  }

  /** The three cases of c, whose lowest byte holds the length. */
  lemma FallThroughC(v: Word, t: seq<Byte>)
    ensures CaseByte(CaseByte(CaseByte(v, t, 10, 24), t, 9, 16), t, 8, 8) == Add(v, TailWord(t))
  {
    hide AddByte, Add, Pack;
    GatherBytes(v, 0, ByteAt(t, 8), ByteAt(t, 9), ByteAt(t, 10));
    var x2 := CaseByte(v, t, 10, 24);
    var x1 := CaseByte(x2, t, 9, 16);
    CaseByteAdds(v, t, 10, 24);
    CaseByteAdds(x2, t, 9, 16);
    CaseByteAdds(x1, t, 8, 8);
    AddNoByte(CaseByte(x1, t, 8, 8), 0);
    hide CaseByte, ByteAt;
  }

  /** The switch over the last bytes: each case falls through to the next. */
  method AddTail(a0: Word, b0: Word, c0: Word, t: seq<Byte>) returns (a: Word, b: Word, c: Word)
    requires |t| < BLOCK
    ensures a == Add(a0, WordAt(t, 0)) && b == Add(b0, WordAt(t, 4)) && c == Add(c0, TailWord(t))
  {
    hide CaseByte, Add, WordAt, TailWord;
    a, b, c := a0, b0, c0;
    c := CaseByte(c, t, 10, 24);
    c := CaseByte(c, t, 9, 16);
    c := CaseByte(c, t, 8, 8);
    b := CaseByte(b, t, 7, 24);
    b := CaseByte(b, t, 6, 16);
    b := CaseByte(b, t, 5, 8);
    b := CaseByte(b, t, 4, 0);
    a := CaseByte(a, t, 3, 24);
    a := CaseByte(a, t, 2, 16);
    a := CaseByte(a, t, 1, 8);
    a := CaseByte(a, t, 0, 0);
    FallThroughC(c0, t);
    FallThrough(b0, t, 4);
    FallThrough(a0, t, 0);
  }

  lemma BlockWord(k: seq<Byte>, p: nat, j: nat)
    requires p + BLOCK <= |k| && j + 4 <= BLOCK
    ensures WordAt(k[p..p + BLOCK], j) == Pack(k[p + j], k[p + j + 1], k[p + j + 2], k[p + j + 3])
  {
    hide Pack;
    var t := k[p..p + BLOCK];
    assert ByteAt(t, j) == k[p + j] && ByteAt(t, j + 1) == k[p + j + 1];
    assert ByteAt(t, j + 2) == k[p + j + 2] && ByteAt(t, j + 3) == k[p + j + 3];
  }

  /** The body of the block loop. */
  method AbsorbBlock(k: seq<Byte>, p: nat, a0: Word, b0: Word, c0: Word) returns (a: Word, b: Word, c: Word)
    requires p + BLOCK <= |k|
    ensures State(a, b, c) == Absorb(State(a0, b0, c0), k[p..p + BLOCK])
  {
    BlockWord(k, p, 0);
    BlockWord(k, p, 4);
    BlockWord(k, p, 8);
    hide Add, Pack, Mix, WordAt;
    a := Add(a0, Pack(k[p], k[p + 1], k[p + 2], k[p + 3]));
    b := Add(b0, Pack(k[p + 4], k[p + 5], k[p + 6], k[p + 7]));
    c := Add(c0, Pack(k[p + 8], k[p + 9], k[p + 10], k[p + 11]));
    a, b, c := MixWords(a, b, c);
  }

  /** The block loop, the length and the tail of hash(); p is how far the pointer k has advanced. */
  method RunLoop(k: seq<Byte>, length: Word, a0: Word, b0: Word, c0: Word) returns (a: Word, b: Word, c: Word)
    ensures State(a, b, c) == Run(State(a0, b0, c0), k, length)
  {
    hide Add, Mix, WordAt, TailWord, Absorb;
    var len: nat, p: nat := |k|, 0;
    a, b, c := a0, b0, c0;
    assert k[0..] == k;
    while len >= BLOCK
      invariant p + len == |k|
      invariant Run(State(a, b, c), k[p..], length) == Run(State(a0, b0, c0), k, length)
    {
      ghost var rest := k[p..];
      assert rest[..BLOCK] == k[p..p + BLOCK] && rest[BLOCK..] == k[p + BLOCK..];
      a, b, c := AbsorbBlock(k, p, a, b, c);
      p, len := p + BLOCK, len - BLOCK;
    }
    c := Add(c, length);
    a, b, c := AddTail(a, b, c, k[p..]);
    a, b, c := MixWords(a, b, c);
  }

  /** hash(). */
  method HashBytes(k: seq<Byte>, initval: Word) returns (h: Word)
    ensures h == Hash(k, initval)
  {
    var a, b;
    a, b, h := RunLoop(HashedPart(k), LengthWord(k), GOLDEN_RATIO, GOLDEN_RATIO, initval);
  }
}
