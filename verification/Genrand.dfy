/** mt19937ar.c: the generator object, a state array of 624 words rewritten in place. */
module Genrand {
  import opened Mt19937

  // ---------------------------------------------------------------- seeding

  function Plus(a: bv32, b: bv32): bv32 { a + b }
  function Minus(a: bv32, b: bv32): bv32 { a - b }
  function Times(a: bv32, b: bv32): bv32 { a * b }

  /** A word with its top bits mixed in, times a factor. */
  function Scramble(w: bv32, factor: bv32): bv32 { Times(Xor(w, Shr(w, 30)), factor) }

  /** The next word of init_genrand. */
  function SeedNext(prev: bv32, i: nat): bv32
    requires i < N
  {
    Plus(Scramble(prev, 1812433253), i as bv32)
  }

  function SeedWord(s: bv32, i: nat): bv32
    requires i < N
  {
    if i == 0 then s else SeedNext(SeedWord(s, i - 1), i)
  }

  function SeedState(s: bv32): (mt: seq<bv32>)
    ensures |mt| == N
  {
    seq(N, i requires 0 <= i < N => SeedWord(s, i))
  }

  /** A word mixed with the word before it, with a word of the key and with its index there. */
  function KeyMix(cur: bv32, prev: bv32, key: bv32, j: bv32): bv32 {
    Plus(Plus(Xor(cur, Scramble(prev, 1664525)), key), j)
  }

  /** A word mixed with the word before it and with its own index. */
  function IndexMix(cur: bv32, prev: bv32, i: bv32): bv32 {
    Minus(Xor(cur, Scramble(prev, 1566083941)), i)
  }

  /** The low 32 bits of an int used in unsigned arithmetic. */
  function Cut(n: nat): bv32 { (n % 0x1_0000_0000) as bv32 }

  /** One step of either seeding loop: word i becomes w; past the end the last word is copied
      to the front and the walk starts again at 1. */
  function Put(mt: seq<bv32>, i: nat, w: bv32): (r: (seq<bv32>, nat))
    requires |mt| == N && 0 < i < N
    ensures |r.0| == N && 0 < r.1 < N
  {
    if i + 1 >= N then (mt[i := w][0 := w], 1) else (mt[i := w], i + 1)
  }

  /** What the first seeding loop leaves after k more steps from word i and key index j. */
  function KeyLoop(mt: seq<bv32>, key: seq<bv32>, i: nat, j: nat, k: nat): (r: (seq<bv32>, nat))
    requires |mt| == N && 0 < i < N && j < |key|
    ensures |r.0| == N && 0 < r.1 < N
    decreases k
  {
    if k == 0 then (mt, i)
    else
      var p := Put(mt, i, KeyMix(mt[i], mt[i - 1], key[j], Cut(j)));
      KeyLoop(p.0, key, p.1, if j + 1 >= |key| then 0 else j + 1, k - 1)
  }

  /** What the second seeding loop leaves after k more steps from word i. */
  function IndexLoop(mt: seq<bv32>, i: nat, k: nat): (r: (seq<bv32>, nat))
    requires |mt| == N && 0 < i < N
    ensures |r.0| == N && 0 < r.1 < N
    decreases k
  {
    if k == 0 then (mt, i)
    else
      var p := Put(mt, i, IndexMix(mt[i], mt[i - 1], Cut(i)));
      IndexLoop(p.0, p.1, k - 1)
  }

  lemma KeyLoopStep(mt: seq<bv32>, key: seq<bv32>, i: nat, j: nat, k: nat)
    requires |mt| == N && 0 < i < N && j < |key|
    ensures KeyLoop(mt, key, i, j, k) ==
            if k == 0 then (mt, i)
            else
              var p := Put(mt, i, KeyMix(mt[i], mt[i - 1], key[j], Cut(j)));
              KeyLoop(p.0, key, p.1, if j + 1 >= |key| then 0 else j + 1, k - 1)
  {
  }

  lemma IndexLoopStep(mt: seq<bv32>, i: nat, k: nat)
    requires |mt| == N && 0 < i < N
    ensures IndexLoop(mt, i, k) ==
            if k == 0 then (mt, i)
            else
              var p := Put(mt, i, IndexMix(mt[i], mt[i - 1], Cut(i)));
              IndexLoop(p.0, p.1, k - 1)
  {
  }

  function KeyState(key: seq<bv32>): (mt: seq<bv32>)
    requires key != []
    ensures |mt| == N
  {
    var a := KeyLoop(SeedState(19650218), key, 1, 0, if N > |key| then N else |key|);
    var b := IndexLoop(a.0, a.1, N - 1);
    b.0[0 := 0x80000000]
  }

  // ---------------------------------------------------------------- seeding as one recurrence

  function KeySteps(len: nat): nat { if len < 624 then 624 else len }

  /** The n-th word the two loops write. It is mixed from the word 623 steps earlier, whose place
      it takes, from the word written just before, and from the key first, from its index later. */
  function Written(key: seq<bv32>, n: nat): bv32
    requires key != []
    decreases n
  {
    var cur := if n < 623 then SeedWord(19650218, n + 1) else Written(key, n - 623);
    var prev := if n == 0 then 19650218 else Written(key, n - 1);
    if n < KeySteps(|key|) then KeyMix(cur, prev, key[n % |key|], Cut(n % |key|))
    else IndexMix(cur, prev, Cut(1 + n % 623))
  }

  /** The array after w whole walks over it and i - 1 steps of the next: the words before i were
      written in this walk, the others in the walk before, or are still seeds. */
  ghost predicate Walked(mt: seq<bv32>, key: seq<bv32>, w: nat, i: nat) {
    && |mt| == 624 && key != [] && 0 < i < 624
    && (forall p | 0 < p < i :: mt[p] == Written(key, 623 * w + p - 1))
    && (forall p | i <= p < 624 ::
          mt[p] == if w == 0 then SeedWord(19650218, p) else Written(key, 623 * w + p - 624))
    && (i == 1 ==> mt[0] == if w == 0 then 19650218 else Written(key, 623 * w - 1))
  }

  lemma WalkBegins(key: seq<bv32>)
    requires key != []
    ensures Walked(SeedState(19650218), key, 0, 1)
  {
    hide SeedNext, Written;
  }

  /** What a step reads, and that writing the next word leads to the next state of the walk. */
  lemma WalkStep(mt: seq<bv32>, key: seq<bv32>, w: nat, i: nat)
    requires Walked(mt, key, w, i)
    ensures var n := 623 * w + i - 1;
            && mt[i] == (if n < 623 then SeedWord(19650218, n + 1) else Written(key, n - 623))
            && mt[i - 1] == (if n == 0 then 19650218 else Written(key, n - 1))
            && n % 623 == i - 1
            && Walked(Put(mt, i, Written(key, n)).0, key, if i == 623 then w + 1 else w,
                      Put(mt, i, Written(key, n)).1)
  {
    hide SeedWord, Written;
    PlaceInWalk(w, i - 1);
  }

  lemma PlaceInWalk(w: nat, d: nat)
    requires d < 623
    ensures (623 * w + d) % 623 == d
  {
  }

  lemma NextRemainder(n: nat, len: nat)
    requires len > 0
    ensures (n + 1) % len == if n % len + 1 >= len then 0 else n % len + 1
  {
    var q, r := n / len, n % len;
    assert n == q * len + r;
    if r + 1 >= len {
      assert n + 1 == (q + 1) * len;
      Remainder(q + 1, 0, len);
    } else {
      Remainder(q, r + 1, len);
    }
  }

  lemma Remainder(q: nat, r: nat, len: nat)
    requires r < len
    ensures (q * len + r) % len == r
  {
    var n := q * len + r;
    var d := n / len - q;
    assert n % len == r - d * len;
    assert d >= 1 ==> d * len >= len;
    assert d <= -1 ==> -d * len >= len;
  }

  lemma {:induction false} KeyLoopWalks(mt: seq<bv32>, key: seq<bv32>, w: nat, i: nat, k: nat) returns (w': nat)
    requires Walked(mt, key, w, i) && 623 * w + i - 1 + k <= KeySteps(|key|)
    ensures var r := KeyLoop(mt, key, i, (623 * w + i - 1) % |key|, k);
            Walked(r.0, key, w', r.1) && 623 * w' + r.1 == 623 * w + i + k
    decreases k
  {
    hide Walked, KeyLoop, KeyMix, Cut, KeySteps, IndexMix, SeedWord;
    WalkSized(mt, key, w, i);
    var n := 623 * w + i - 1;
    var j := n % |key|;
    KeyLoopStep(mt, key, i, j, k);
    w' := w;
    if k > 0 {
      WalkStep(mt, key, w, i);
      NextRemainder(n, |key|);
      assert Written(key, n) == KeyMix(mt[i], mt[i - 1], key[j], Cut(j));
      var p := Put(mt, i, Written(key, n));
      w' := KeyLoopWalks(p.0, key, if i == 623 then w + 1 else w, p.1, k - 1);
    }
  }

  lemma WalkSized(mt: seq<bv32>, key: seq<bv32>, w: nat, i: nat)
    requires Walked(mt, key, w, i)
    ensures |mt| == 624 && key != [] && 0 < i < 624
  {
  }

  lemma {:induction false} IndexLoopWalks(mt: seq<bv32>, key: seq<bv32>, w: nat, i: nat, k: nat) returns (w': nat)
    requires Walked(mt, key, w, i) && 623 * w + i - 1 >= KeySteps(|key|)
    ensures var r := IndexLoop(mt, i, k);
            Walked(r.0, key, w', r.1) && 623 * w' + r.1 == 623 * w + i + k
    decreases k
  {
    hide Walked, IndexLoop, IndexMix, Cut, KeySteps, KeyMix, SeedWord;
    WalkSized(mt, key, w, i);
    var n := 623 * w + i - 1;
    IndexLoopStep(mt, i, k);
    w' := w;
    if k > 0 {
      WalkStep(mt, key, w, i);
      assert Written(key, n) == IndexMix(mt[i], mt[i - 1], Cut(i));
      var p := Put(mt, i, Written(key, n));
      w' := IndexLoopWalks(p.0, key, if i == 623 then w + 1 else w, p.1, k - 1);
    }
  }

  /** What init_by_array leaves: the last 623 words of the recurrence, each in its place, behind
      the forced first word. */
  ghost predicate LeavesWritten(mt: seq<bv32>, key: seq<bv32>) {
    && |mt| == 624 && key != [] && mt[0] == 0x80000000
    && forall n | KeySteps(|key|) <= n < KeySteps(|key|) + 623 :: mt[1 + n % 623] == Written(key, n)
  }

  lemma KeyWalks(key: seq<bv32>, k: nat) returns (w: nat)
    requires key != [] && k <= KeySteps(|key|)
    ensures var r := KeyLoop(SeedState(19650218), key, 1, 0, k); Walked(r.0, key, w, r.1) && 623 * w + r.1 == k + 1
  {
    hide Walked, KeyLoop, SeedState, KeySteps;
    WalkBegins(key);
    assert 0 % |key| == 0;
    w := KeyLoopWalks(SeedState(19650218), key, 0, 1, k);
  }

  lemma KeyStateWritten(key: seq<bv32>)
    requires key != []
    ensures LeavesWritten(KeyState(key), key)
  {
    hide Walked, KeyLoop, IndexLoop, SeedState, Written;
    var steps := KeySteps(|key|);
    var a := KeyLoop(SeedState(19650218), key, 1, 0, steps);
    var w := KeyWalks(key, steps);
    var w' := IndexLoopWalks(a.0, key, w, a.1, 623);
    var b := IndexLoop(a.0, a.1, 623);
    WalkEnds(b.0, key, w', b.1, steps);
  }

  lemma WalkEnds(mt: seq<bv32>, key: seq<bv32>, w: nat, i: nat, steps: nat)
    requires Walked(mt, key, w, i) && 623 * w + i - 1 == steps + 623
    ensures forall n | steps <= n < steps + 623 :: mt[1 + n % 623] == Written(key, n)
  {
    hide Walked, Written;
    WalkSized(mt, key, w, i);
    forall n | steps <= n < steps + 623 ensures mt[1 + n % 623] == Written(key, n) {
      WalkedAt(mt, key, w, i, n);
    }
  }

  /** Where one of the last 623 words written stands. */
  lemma WalkedAt(mt: seq<bv32>, key: seq<bv32>, w: nat, i: nat, n: nat)
    requires Walked(mt, key, w, i) && n < 623 * w + i - 1 <= n + 623
    ensures mt[1 + n % 623] == Written(key, n)
  {
    hide Walked, Written;
    WalkSized(mt, key, w, i);
    var v := if n >= 623 * w then w else w - 1;
    PlaceInWalk(v, n - 623 * v);
    if v == w { ThisWalk(mt, key, w, i, n - 623 * w); } else { LastWalk(mt, key, w, i, n - 623 * v); }
  }

  lemma ThisWalk(mt: seq<bv32>, key: seq<bv32>, w: nat, i: nat, d: nat)
    requires Walked(mt, key, w, i) && d < i - 1
    ensures mt[1 + d] == Written(key, 623 * w + d)
  {
    hide Written;
    assert 623 * w + (1 + d) - 1 == 623 * w + d;
  }

  lemma LastWalk(mt: seq<bv32>, key: seq<bv32>, w: nat, i: nat, d: nat)
    requires Walked(mt, key, w, i) && w > 0 && i - 1 <= d < 623
    ensures mt[1 + d] == Written(key, 623 * (w - 1) + d)
  {
    hide Written, SeedWord;
    assert 623 * w + (1 + d) - 624 == 623 * (w - 1) + d;
  }

  lemma SeedNextAfterZero(i: nat)
    requires i < N
    ensures SeedNext(0, i) == i as bv32
  {
  }

  lemma SeededAll(mt: seq<bv32>, s: bv32)
    requires |mt| == N && forall k | 0 <= k < N :: mt[k] == SeedWord(s, k)
    ensures mt == SeedState(s)
  {
    hide SeedWord;
  }

  /** No seed gives a state that is zero where the recurrence looks. */
  lemma SeedStateNonzero(s: bv32)
    ensures !IsZero(WindowAt(SeedState(s), 0))
  {
    hide SeedNext, Upper;
    var init := SeedState(s);
    var w := WindowAt(init, 0);
    assert w.rest[0] == Word(init, 1) == SeedWord(s, 1);
    assert w.rest[1] == Word(init, 2) == SeedNext(SeedWord(s, 1), 2);
    SeedNextAfterZero(2);
  }

  /** Nor does any key: the top bit of the first word is set. */
  lemma KeyStateNonzero(key: seq<bv32>)
    requires key != []
    ensures !IsZero(WindowAt(KeyState(key), 0))
  {
    hide KeyLoop, IndexLoop;
    assert Word(KeyState(key), 0) == 0x80000000;
    assert Upper(0x80000000) == 0x80000000;
  }

  // ---------------------------------------------------------------- the generator

  /** mt[0..N-1] holds words first .. first+N-1 of the sequence begun by init. */
  ghost predicate HoldsBlock(mt: seq<bv32>, init: seq<bv32>, first: nat)
    requires |mt| == N == |init|
  {
    forall k | 0 <= k < N :: mt[k] == Word(init, first + k)
  }

  lemma FirstBlock(init: seq<bv32>)
    requires |init| == N
    ensures HoldsBlock(init, init, 0)
  {
  }

  class Generator {
    var mt: array<bv32>
    var mti: nat
    /** The state array as the seeding left it, and how many words were drawn since. */
    ghost var init: seq<bv32>
    ghost var drawn: nat

    ghost predicate Seeded()
      reads this
    {
      mti != N + 1
    }

    ghost predicate Valid()
      reads this, mt
    {
      && mt.Length == N && mti <= N + 1
      && (Seeded() ==>
            && |init| == N && !IsZero(WindowAt(init, 0))
            && drawn + N >= mti && (drawn + N - mti) % N == 0
            && (drawn == 0 ==> mti == N) && (drawn > 0 ==> mti > 0)
            && HoldsBlock(mt[..], init, drawn + N - mti))
    }

    constructor ()
      ensures Valid() && fresh(mt) && !Seeded()
    {
      mt := new bv32[N];
      mti := N + 1;
      init, drawn := [], 0;
    }

    method InitGenrand(s: bv32)
      requires Valid()
      modifies this, mt
      ensures Valid() && mt == old(mt) && Seeded()
      ensures init == SeedState(s) == mt[..] && drawn == 0 && mti == N
    {
      hide SeedNext, SeedState, WindowAt, IsZero, HoldsBlock, Word;
      mt[0] := s;
      mti := 1;
      while mti < N
        invariant 1 <= mti <= N && mt == old(mt) && mt.Length == N
        invariant forall k | 0 <= k < mti :: mt[k] == SeedWord(s, k)
      {
        mt[mti] := SeedNext(mt[mti - 1], mti);
        mti := mti + 1;
      }
      init, drawn := SeedState(s), 0;
      SeededAll(mt[..], s);
      FirstBlock(init);
      SeedStateNonzero(s);
    }

    method InitByArray(key: seq<bv32>)
      requires Valid() && key != []
      modifies this, mt
      ensures Valid() && mt == old(mt) && Seeded()
      ensures init == KeyState(key) == mt[..] && drawn == 0 && mti == N
      ensures LeavesWritten(mt[..], key)
    {
      hide KeyMix, IndexMix, Cut, WindowAt, IsZero, SeedState, KeyLoop, IndexLoop, HoldsBlock, Word;
      hide LeavesWritten;
      InitGenrand(19650218);
      var i, j := 1, 0;
      var k := if N > |key| then N else |key|;
      ghost var a := KeyLoop(mt[..], key, i, j, k);
      while k > 0
        invariant mt == old(mt) && mt.Length == N && mti == N && drawn == 0
        invariant 0 < i < N && 0 <= j < |key| && k >= 0
        invariant KeyLoop(mt[..], key, i, j, k) == a
      {
        ghost var before := mt[..];
        KeyLoopStep(before, key, i, j, k);
        var w := KeyMix(mt[i], mt[i - 1], key[j], Cut(j));
        mt[i] := w;
        assert mt[..] == before[i := w];
        i, j, k := i + 1, j + 1, k - 1;
        if i >= N {
          mt[0] := mt[N - 1];
          i := 1;
          assert mt[..] == before[N - 1 := w][0 := w];
        }
        if j >= |key| { j := 0; }
      }
      KeyLoopStep(mt[..], key, i, j, 0);
      k := N - 1;
      ghost var b := IndexLoop(mt[..], i, k);
      while k > 0
        invariant mt == old(mt) && mt.Length == N && mti == N && drawn == 0
        invariant 0 < i < N && k >= 0
        invariant IndexLoop(mt[..], i, k) == b
      {
        ghost var before := mt[..];
        IndexLoopStep(before, i, k);
        var w := IndexMix(mt[i], mt[i - 1], Cut(i));
        mt[i] := w;
        assert mt[..] == before[i := w];
        i, k := i + 1, k - 1;
        if i >= N {
          mt[0] := mt[N - 1];
          i := 1;
          assert mt[..] == before[N - 1 := w][0 := w];
        }
      }
      IndexLoopStep(mt[..], i, 0);
      ghost var before := mt[..];
      mt[0] := 0x80000000;
      assert mt[..] == before[0 := 0x80000000];
      init := KeyState(key);
      FirstBlock(init);
      KeyStateNonzero(key);
      KeyStateWritten(key);
    }

    /** The three loops that rewrite the array in place: one block of the sequence on. */
    method Regenerate(ghost first: nat)
      requires mt.Length == N && |init| == N && HoldsBlock(mt[..], init, first)
      modifies mt
      ensures HoldsBlock(mt[..], init, first + N)
    {
      hide Twist, Join, Xor, HoldsBlock, Word;
      OldWords(mt[..], init, first);
      var kk := 0;
      while kk < N - M
        invariant 0 <= kk <= N - M
        invariant Rewritten(mt[..], init, first, kk)
      {
        RewriteStep(mt[..], init, first, kk);
        mt[kk] := Xor(mt[kk + M], Twist(Join(mt[kk], mt[kk + 1])));
        kk := kk + 1;
      }
      while kk < N - 1
        invariant N - M <= kk <= N - 1
        invariant Rewritten(mt[..], init, first, kk)
      {
        RewriteStep(mt[..], init, first, kk);
        mt[kk] := Xor(mt[kk + M - N], Twist(Join(mt[kk], mt[kk + 1])));
        kk := kk + 1;
      }
      RewriteStep(mt[..], init, first, N - 1);
      mt[N - 1] := Xor(mt[M - 1], Twist(Join(mt[N - 1], mt[0])));
      NewWords(mt[..], init, first);
    }

    /** Draws the next word. A generator that was never seeded is seeded with 5489 first. */
    method GenrandInt32() returns (y: bv32)
      requires Valid()
      modifies this, mt
      ensures Valid() && mt == old(mt) && Seeded()
      ensures init == if old(Seeded()) then old(init) else SeedState(5489)
      ensures drawn == 1 + if old(Seeded()) then old(drawn) else 0
      ensures y == Temper(Word(init, N + drawn - 1))
    {
      hide HoldsBlock, WindowAt, IsZero, Temper, SeedState, Word;
      if mti >= N {
        if mti == N + 1 {
          InitGenrand(5489);
        }
        Regenerate(drawn);
        mti := 0;
      }
      ReadWord(mt[..], init, drawn + N - mti, mti);
      y := mt[mti];
      mti := mti + 1;
      drawn := drawn + 1;
      y := Temper(y);
    }

    /** The array is never all zero again, whatever was drawn. */
    lemma StateNonzero()
      requires Valid() && Seeded()
      ensures exists k :: 0 <= k < N && mt[k] != 0
    {
      var k := SomeWordNonzero(init, drawn + N - mti);
      assert mt[..][k] == mt[k];
    }
  }

  /** The first kk words are already those of the next block; the others are not. */
  ghost predicate Rewritten(mt: seq<bv32>, init: seq<bv32>, first: nat, kk: nat)
    requires |mt| == N == |init| && kk <= N
  {
    && (forall k | 0 <= k < kk :: mt[k] == Word(init, first + N + k))
    && (forall k | kk <= k < N :: mt[k] == Word(init, first + k))
  }

  lemma OldWords(mt: seq<bv32>, init: seq<bv32>, first: nat)
    requires |mt| == N == |init| && HoldsBlock(mt, init, first)
    ensures Rewritten(mt, init, first, 0)
  {
  }

  lemma NewWords(mt: seq<bv32>, init: seq<bv32>, first: nat)
    requires |mt| == N == |init| && Rewritten(mt, init, first, N)
    ensures HoldsBlock(mt, init, first + N)
  {
  }

  /** The words the loops read, old or already rewritten, are those the recurrence names. */
  lemma RewriteStep(mt: seq<bv32>, init: seq<bv32>, first: nat, kk: nat)
    requires |mt| == N == |init| && kk < N && Rewritten(mt, init, first, kk)
    ensures var far := if kk < N - M then mt[kk + M] else mt[kk + M - N];
            var near := if kk < N - 1 then mt[kk + 1] else mt[0];
            var w := Xor(far, Twist(Join(mt[kk], near)));
            w == Word(init, first + N + kk) && Rewritten(mt[kk := w], init, first, kk + 1)
  {
    hide Twist, Join, Xor;
    var n := first + N + kk;
    assert Word(init, n) == Xor(Word(init, n - N + M), Twist(Join(Word(init, n - N), Word(init, n - N + 1))));
  }

  lemma ReadWord(mt: seq<bv32>, init: seq<bv32>, first: nat, k: nat)
    requires |mt| == N == |init| && k < N && HoldsBlock(mt, init, first)
    ensures mt[k] == Word(init, first + k)
  {
  }

  /** The output loop of main: any number of words, in order. */
  method Draw(g: Generator, count: nat) returns (ys: seq<bv32>)
    requires g.Valid()
    modifies g, g.mt
    ensures g.Valid() && g.mt == old(g.mt) && |ys| == count
    ensures count > 0 ==> g.init == if old(g.Seeded()) then old(g.init) else SeedState(5489)
    ensures var start := if old(g.Seeded()) then old(g.drawn) else 0;
            forall i | 0 <= i < count :: |g.init| == N && ys[i] == Temper(Word(g.init, N + start + i))
  {
    hide Temper, Word, SeedState, WindowAt, IsZero, HoldsBlock;
    ys := [];
    ghost var start := if g.Seeded() then g.drawn else 0;
    while |ys| < count
      invariant |ys| <= count && g.Valid() && g.mt == old(g.mt)
      invariant g.Seeded() || (ys == [] && !old(g.Seeded()))
      invariant g.Seeded() ==> g.drawn == start + |ys|
      invariant ys == [] ==> g.init == old(g.init) && g.Seeded() == old(g.Seeded())
      invariant ys != [] ==> g.init == if old(g.Seeded()) then old(g.init) else SeedState(5489)
      invariant forall i | 0 <= i < |ys| :: |g.init| == N && ys[i] == Temper(Word(g.init, N + start + i))
    {
      var y := g.GenrandInt32();
      ys := ys + [y];
    }
  }
}
