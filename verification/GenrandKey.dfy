/** mt19937ar.c: which seeds and which keys the generator tells apart. */
module GenrandKey {
  import opened Mt19937
  import opened Genrand

  // ---------------------------------------------------------------- what undoes each mixing step

  /** The word of the key in a word written by the first loop. */
  function KeyUnmix(w: bv32, cur: bv32, prev: bv32, j: bv32): bv32 {
    Minus(Minus(w, j), Xor(cur, Scramble(prev, 1664525)))
  }

  /** The word that a word written by the second loop replaced. */
  function IndexUnmix(w: bv32, prev: bv32, i: bv32): bv32 {
    Xor(Plus(w, i), Scramble(prev, 1566083941))
  }

  lemma PlusMinus(a: bv32, b: bv32)
    ensures Minus(Plus(a, b), b) == a && Minus(Plus(a, b), a) == b
    ensures Plus(Minus(a, b), b) == a && Plus(b, Minus(a, b)) == a
  {
  }

  lemma XorTwice(a: bv32, b: bv32)
    ensures Xor(Xor(a, b), b) == a
  {
  }

  lemma KeyUnmixMix(cur: bv32, prev: bv32, key: bv32, j: bv32)
    ensures KeyUnmix(KeyMix(cur, prev, key, j), cur, prev, j) == key
  {
    hide Plus, Minus, Xor, Scramble;
    var a := Xor(cur, Scramble(prev, 1664525));
    PlusMinus(Plus(a, key), j);
    PlusMinus(a, key);
  }

  lemma KeyMixUnmix(w: bv32, cur: bv32, prev: bv32, j: bv32)
    ensures KeyMix(cur, prev, KeyUnmix(w, cur, prev, j), j) == w
  {
    hide Plus, Minus, Xor, Scramble;
    PlusMinus(Minus(w, j), Xor(cur, Scramble(prev, 1664525)));
    PlusMinus(w, j);
  }

  lemma IndexUnmixMix(cur: bv32, prev: bv32, i: bv32)
    ensures IndexUnmix(IndexMix(cur, prev, i), prev, i) == cur
  {
    hide Plus, Minus, Xor, Scramble;
    PlusMinus(Xor(cur, Scramble(prev, 1566083941)), i);
    XorTwice(cur, Scramble(prev, 1566083941));
  }

  function FlipTop(x: bv32): bv32 { x + 0x80000000 }

  lemma AddTop(a: bv32, b: bv32)
    ensures Plus(a, b + 0x80000000) == Plus(a, b) + 0x80000000
    ensures Plus(b + 0x80000000, a) == Plus(b, a) + 0x80000000
  {
  }

  lemma FlipPlus(a: bv32, b: bv32)
    ensures Plus(a, FlipTop(b)) == FlipTop(Plus(a, b)) && Plus(FlipTop(b), a) == FlipTop(Plus(b, a))
  {
    hide Plus;
    AddTop(a, b);
  }

  lemma FlipXor(a: bv32, b: bv32)
    ensures Xor(FlipTop(a), b) == FlipTop(Xor(a, b))
  {
  }

  lemma FlipTwice(a: bv32)
    ensures FlipTop(FlipTop(a)) == a != FlipTop(a)
  {
  }

  /** The top bit of a key word and the top bit of the word it is mixed with cancel. */
  lemma TopBits(cur: bv32, prev: bv32, key: bv32, j: bv32)
    ensures KeyMix(cur, prev, FlipTop(key), j) == FlipTop(KeyMix(cur, prev, key, j))
    ensures KeyMix(FlipTop(cur), prev, FlipTop(key), j) == KeyMix(cur, prev, key, j)
  {
    hide Plus, Minus, Xor, Scramble, FlipTop;
    var a := Xor(cur, Scramble(prev, 1664525));
    FlipXor(cur, Scramble(prev, 1664525));
    FlipPlus(a, key);
    FlipPlus(FlipTop(key), a);
    FlipPlus(j, Plus(a, key));
    FlipTwice(Plus(a, key));
  }

  // ---------------------------------------------------------------- the key in the words written

  /** Each of the first words written gives a word of the key back. */
  lemma ReadBack(key: seq<bv32>, n: nat)
    requires n < |key| && n < 623
    ensures var prev := if n == 0 then 19650218 else Written(key, n - 1);
            key[n] == KeyUnmix(Written(key, n), SeedWord(19650218, n + 1), prev, Cut(n))
  {
    hide KeyMix, IndexMix, Cut, KeyUnmix, SeedWord;
    SmallRemainder(n, |key|);
    var prev := if n == 0 then 19650218 else Written(key, n - 1);
    KeyUnmixMix(SeedWord(19650218, n + 1), prev, key[n], Cut(n));
  }

  lemma CutIs(n: nat)
    requires n < 0x1_0000_0000
    ensures Cut(n) == n as bv32
  {
  }

  lemma SmallRemainder(n: nat, len: nat)
    requires n < len
    ensures n % len == n
  {
  }

  /** Read against the seeds, the words behind the first give the key. */
  ghost predicate HoldsKey(mt: seq<bv32>, key: seq<bv32>) {
    && |mt| == 624 && |key| <= 623
    && forall j {:trigger key[j]} | 0 <= j < |key| ::
         key[j] == KeyUnmix(mt[j + 1], SeedWord(19650218, j + 1), if j == 0 then 19650218 else mt[j], Cut(j))
  }

  /** The array left by the first |key| steps of the first loop holds the key. */
  lemma KeyLeft(key: seq<bv32>)
    requires 0 < |key| <= 623
    ensures HoldsKey(KeyLoop(SeedState(19650218), key, 1, 0, |key|).0, key)
  {
    hide Walked, KeyLoop, SeedState, Written, Cut, KeyUnmix, SeedWord;
    var w := KeyWalks(key, |key|);
    var r := KeyLoop(SeedState(19650218), key, 1, 0, |key|);
    forall j | 0 <= j < |key|
      ensures key[j] == KeyUnmix(r.0[j + 1], SeedWord(19650218, j + 1), if j == 0 then 19650218 else r.0[j], Cut(j))
    {
      ReadBack(key, j);
      FirstWalk(r.0, key, w, r.1, j);
      if j > 0 { FirstWalk(r.0, key, w, r.1, j - 1); }
    }
  }

  lemma FirstWalk(mt: seq<bv32>, key: seq<bv32>, w: nat, i: nat, n: nat)
    requires Walked(mt, key, w, i) && n < 623 * w + i - 1 <= 623
    ensures mt[n + 1] == Written(key, n)
  {
    hide Written;
  }

  lemma HoldsOneKey(mt: seq<bv32>, key: seq<bv32>, other: seq<bv32>)
    requires HoldsKey(mt, key) && HoldsKey(mt, other) && |key| == |other|
    ensures key == other
  {
    hide KeyUnmix, SeedWord, Cut;
    assert forall j | 0 <= j < |key| :: key[j] == other[j];
  }

  /** Two keys of one length leave different arrays there. */
  lemma KeyLeftApart(key: seq<bv32>, other: seq<bv32>)
    requires 0 < |key| == |other| <= 623 && key != other
    ensures KeyLoop(SeedState(19650218), key, 1, 0, |key|).0 != KeyLoop(SeedState(19650218), other, 1, 0, |key|).0
  {
    hide KeyLoop, SeedState, HoldsKey;
    var mt := KeyLoop(SeedState(19650218), key, 1, 0, |key|).0;
    KeyLeft(key);
    KeyLeft(other);
    if HoldsKey(mt, other) { HoldsOneKey(mt, key, other); }
  }

  // ---------------------------------------------------------------- the key in the seeded array

  ghost predicate SameWord(key: seq<bv32>, other: seq<bv32>, n: nat)
    requires key != [] && other != []
  {
    Written(key, n) == Written(other, n)
  }

  /** The words that arrays of the same content were made of are the same too. */
  lemma SameWritten(key: seq<bv32>, other: seq<bv32>)
    requires 0 < |key| == |other| <= 624 && KeyState(key) == KeyState(other)
    ensures forall n | 0 < n < 624 :: SameWord(key, other, n)
  {
    hide KeyState, Written;
    KeyStateWritten(key);
    KeyStateWritten(other);
    forall n | 624 <= n < 1247 ensures SameWord(key, other, n) {
      assert KeyState(key)[1 + n % 623] == Written(key, n);
    }
    forall n | 2 <= n < 624 ensures SameWord(key, other, n) {
      Replaced(key, other, n);
    }
    Replaced(key, other, 1);
  }

  /** A step of the second loop gives back the word it replaced. */
  lemma Replaced(key: seq<bv32>, other: seq<bv32>, n: nat)
    requires 0 < |key| == |other| <= 624 && 0 < n < 624
    requires SameWord(key, other, n + 622) && SameWord(key, other, n + 623)
    ensures SameWord(key, other, n)
  {
    hide KeyMix, IndexMix, Cut, IndexUnmix, SeedWord;
    var i := Cut(1 + (n + 623) % 623);
    IndexUnmixMix(Written(key, n), Written(key, n + 622), i);
    IndexUnmixMix(Written(other, n), Written(other, n + 622), i);
  }

  /** Keys of at most 622 words are told apart by the seeded array. */
  lemma ToldApart(key: seq<bv32>, other: seq<bv32>)
    requires 0 < |key| == |other| <= 622 && KeyState(key) == KeyState(other)
    ensures key == other
  {
    hide KeyState, Written, Cut, KeyUnmix, SeedWord, SameWord;
    SameWritten(key, other);
    SameFirst(key, other);
    forall j | 0 <= j < |key| ensures key[j] == other[j] {
      ReadBack(key, j);
      ReadBack(other, j);
      SameBefore(key, other, j);
    }
  }

  lemma SameBefore(key: seq<bv32>, other: seq<bv32>, j: nat)
    requires 0 < |key| == |other| && j < 622
    requires SameWord(key, other, 0) && forall n | 0 < n < 624 :: SameWord(key, other, n)
    ensures Written(key, j) == Written(other, j) && (j > 0 ==> Written(key, j - 1) == Written(other, j - 1))
  {
    hide Written;
    assert j > 0 ==> SameWord(key, other, j);
    assert j > 1 ==> SameWord(key, other, j - 1);
  }

  /** The first word of the key is used again before the first walk over the array ends, which
      gives back the one word the array no longer holds. */
  lemma SameFirst(key: seq<bv32>, other: seq<bv32>)
    requires 0 < |key| == |other| <= 622 && forall n | 0 < n < 624 :: SameWord(key, other, n)
    ensures SameWord(key, other, 0)
  {
    hide KeyMix, IndexMix, Cut, KeyUnmix, SeedWord;
    var m := if |key| == 1 then 2 else |key|;
    assert SameWord(key, other, m) && SameWord(key, other, m - 1);
    assert m % |key| == 0 && 0 % |key| == 0;
    KeyUnmixMix(SeedWord(19650218, m + 1), Written(key, m - 1), key[0], Cut(0));
    KeyUnmixMix(SeedWord(19650218, m + 1), Written(other, m - 1), other[0], Cut(0));
  }

  // ---------------------------------------------------------------- longer keys

  /** Another key with the same array: the top bit of its first word is flipped, and its second
      word and its word 623, if there is one, make up for that. */
  function Twin(key: seq<bv32>): (r: seq<bv32>)
    requires |key| >= 623
    ensures |r| == |key|
  {
    var k := key[0 := FlipTop(key[0])];
    var first := KeyMix(SeedWord(19650218, 1), 19650218, k[0], Cut(0));
    var k1 := k[1 := KeyUnmix(Written(key, 1), SeedWord(19650218, 2), first, Cut(1))];
    if |key| == 623 then k1
    else k1[623 := KeyUnmix(Written(key, 623), first, Written(key, 622), Cut(623))]
  }

  /** The first words the first loop writes for the twin: the top bit differs, then nothing. */
  lemma TwinBegins(key: seq<bv32>)
    requires |key| >= 623
    ensures Twin(key)[0] == FlipTop(key[0]) != key[0] && Written(Twin(key), 0) == FlipTop(Written(key, 0))
    ensures SameWord(key, Twin(key), 1)
    ensures |key| > 623 ==>
              Twin(key)[623] == KeyUnmix(Written(key, 623), Written(Twin(key), 0), Written(key, 622), Cut(623))
  {
    hide KeyMix, IndexMix, Cut, KeyUnmix, SeedWord, FlipTop;
    var k := Twin(key);
    FlipTwice(key[0]);
    SmallRemainder(0, |key|);
    SmallRemainder(1, |key|);
    TopBits(SeedWord(19650218, 1), 19650218, key[0], Cut(0));
    KeyMixUnmix(Written(key, 1), SeedWord(19650218, 2), Written(k, 0), Cut(1));
  }

  /** Where the second walk over the array meets the flipped bit, with the flipped word of the
      key ... */
  lemma TwinMeetsFirst(key: seq<bv32>)
    requires |key| == 623 && SameWord(key, Twin(key), 622)
    requires Twin(key)[0] == FlipTop(key[0]) && Written(Twin(key), 0) == FlipTop(Written(key, 0))
    ensures SameWord(key, Twin(key), 623)
  {
    hide KeyMix, IndexMix, Cut, KeyUnmix, SeedWord, FlipTop, Twin;
    TopBits(Written(key, 0), Written(key, 622), key[0], Cut(0));
    assert 623 % |key| == 0;
  }

  /** ... or with a word of the key that makes up for it. */
  lemma TwinMeetsLater(key: seq<bv32>)
    requires |key| > 623 && SameWord(key, Twin(key), 622)
    requires Twin(key)[623] == KeyUnmix(Written(key, 623), Written(Twin(key), 0), Written(key, 622), Cut(623))
    ensures SameWord(key, Twin(key), 623)
  {
    hide KeyMix, IndexMix, Cut, KeyUnmix, SeedWord, FlipTop, Twin;
    SmallRemainder(623, |key|);
    KeyMixUnmix(Written(key, 623), Written(Twin(key), 0), Written(key, 622), Cut(623));
  }

  lemma {:induction false} TwinWrites(key: seq<bv32>, n: nat)
    requires |key| >= 623
    ensures n > 0 ==> SameWord(key, Twin(key), n)
  {
    hide KeyMix, IndexMix, Cut, KeyUnmix, SeedWord, FlipTop;
    var k := Twin(key);
    TwinBegins(key);
    if n > 1 {
      TwinWrites(key, n - 1);
      if n == 623 {
        if |key| == 623 { TwinMeetsFirst(key); } else { TwinMeetsLater(key); }
      } else {
        if n > 623 { TwinWrites(key, n - 623); }
        if n < KeySteps(|key|) { SmallRemainder(n, |key|); }
      }
    }
  }

  /** One of any 623 steps in a row writes word p. */
  lemma StepThatWrites(p: nat, first: nat) returns (n: nat)
    requires 0 < p < 624
    ensures first <= n < first + 623 && 1 + n % 623 == p
  {
    var r := first % 623;
    n := if r <= p - 1 then first + (p - 1 - r) else first + (p - 1 - r) + 623;
  }

  lemma SameState(mt: seq<bv32>, mt': seq<bv32>, key: seq<bv32>, other: seq<bv32>)
    requires LeavesWritten(mt, key) && LeavesWritten(mt', other) && |key| == |other|
    requires forall n | n > 0 :: SameWord(key, other, n)
    ensures mt == mt'
  {
    hide Written;
    forall p | 0 <= p < 624 ensures mt[p] == mt'[p] {
      if p > 0 {
        var n := StepThatWrites(p, KeySteps(|key|));
        assert SameWord(key, other, n);
      }
    }
  }

  /** The twin is another key that seeds the same array. */
  lemma TwinState(key: seq<bv32>)
    requires |key| >= 623
    ensures Twin(key) != key && KeyState(Twin(key)) == KeyState(key)
  {
    hide KeyState, Twin, Written, FlipTop, LeavesWritten, SameWord;
    TwinBegins(key);
    KeyStateWritten(key);
    KeyStateWritten(Twin(key));
    forall n: nat | n > 0 ensures SameWord(key, Twin(key), n) {
      TwinWrites(key, n);
    }
    SameState(KeyState(key), KeyState(Twin(key)), key, Twin(key));
  }

  ghost predicate TellsApart(len: nat)
    requires len > 0
  {
    forall key: seq<bv32>, other: seq<bv32> |
      |key| == len == |other| && KeyState(key) == KeyState(other) :: key == other
  }

  /** Seeding by a key tells the keys of one length apart exactly up to 622 words. */
  lemma TellsApartIff(len: nat)
    requires len > 0
    ensures TellsApart(len) <==> len <= 622
  {
    hide KeyState, Twin;
    if len <= 622 {
      forall key: seq<bv32>, other: seq<bv32> | |key| == len == |other| && KeyState(key) == KeyState(other)
        ensures key == other
      {
        ToldApart(key, other);
      }
    } else {
      var key := seq(len, i requires 0 <= i < len => 0 as bv32);
      TwinState(key);
      assert |Twin(key)| == len == |key|;
    }
  }

  /** The first words of the default seeding. */
  lemma KnownSeedWords()
    ensures SeedWord(5489, 0) == 5489 && SeedWord(5489, 1) == 0x4d98ee96
    ensures SeedWord(5489, 2) == 0xaf25f095 && SeedWord(5489, 3) == 0xafd9ba96
  {
  }
}
