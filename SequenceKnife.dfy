/**
 * The k-mer generator (class SequenceKnife): over an encoded sequence of
 * length n it fixes an order of window start positions under one of four
 * sampling policies, flags the window starts that would cover an ambiguous
 * symbol, and hands out windows one by one through a cursor.
 *
 * The pseudo-random generator of the shuffle is replaced by the draws it
 * would return: draws[i] is the value of nextInt(len - i), in [0, len - i).
 * Which symbols are ambiguous is decided by a predicate the caller supplies.
 */
module Knife {
  import opened Util
  import opened DnaStates

  /** The SAMPLING_* constants. */
  datatype SamplingMode = Stochastic | Linear | Sequential | NonOverlapping

  /** QueryWord: a window and the position it starts at. */
  datatype QueryWord = QueryWord(word: seq<Byte>, originalPosition: int)

  /** What getNextByteWord returns: null, the AMBIGUOUS_KMER sentinel array, or a window. */
  datatype ByteWord = Exhausted | AmbiguousKmer | Window(bytes: seq<Byte>)

  // ------------------------------------------------------------ encoding

  /** Every character of the sequence is accepted by stateToByte. */
  ghost predicate Encodable(s: string)
  {
    forall i :: 0 <= i < |s| ==> StateToByte(s[i]).Ok?
  }

  /** The codes of a valid sequence. */
  ghost function Encoded(s: string): seq<Byte>
    requires Encodable(s)
  {
    seq(|s|, i requires 0 <= i < |s| => StateToByte(s[i]).value)
  }

  /** The window starting at p would cover an ambiguous symbol. */
  ghost predicate FlaggedWindow(s: string, k: int, isAmbiguous: char -> bool, p: int)
  {
    exists t :: p <= t < p + k && 0 <= t < |s| && isAmbiguous(s[t])
  }

  // ------------------------------------------------------------ position orders

  /** Number of positions the order of a mode holds. */
  function OrderLength(mode: SamplingMode, n: nat, k: int): nat
    requires k >= 1
  {
    if mode.NonOverlapping? then n / k + 1 else n
  }

  /** The step of a mode. */
  function StepOf(mode: SamplingMode, k: int): int
  {
    if mode.NonOverlapping? then k else 1
  }

  /** NON_OVERLAPPING: slot j holds j*k while j*k < n; the remaining slot stays 0. */
  function NonOverlappingOrder(n: nat, k: nat): seq<int>
    requires k >= 1
  {
    seq(n / k + 1, j => if j * k < n then j * k else 0)
  }

  /** The draws of a shuffle of len positions are in range: draws[i] < len - i. */
  ghost predicate ValidDraws(draws: seq<int>, len: nat)
  {
    |draws| >= len - 1 && forall i :: 0 <= i < len - 1 ==> 0 <= draws[i] < len - i
  }

  /** One exchange of the shuffle, in the source's order of writes. */
  function Swap(a: seq<int>, i: nat, j: nat): (r: seq<int>)
    requires i < |a| && j < |a|
    ensures |r| == |a|
  {
    a[j := a[i]][i := a[j]]
  }

  /** An exchange keeps the elements. */
  lemma SwapKeepsElements(a: seq<int>, i: nat, j: nat)
    requires i < |a| && j < |a|
    ensures multiset(Swap(a, i, j)) == multiset(a)
  {
  }

  /** Fisher-Yates from index i on: exchange a[i] with a[i + draws[i]], then go on with i + 1. */
  function Shuffled(a: seq<int>, i: nat, draws: seq<int>): seq<int>
    requires ValidDraws(draws, |a|)
    decreases |a| - i
  {
    if i + 1 >= |a| then a else Shuffled(Swap(a, i, i + draws[i]), i + 1, draws)
  }

  /** Number of positions p < n with p % k == s (for s < k). */
  function ClassSize(s: nat, n: nat, k: nat): nat
    requires k >= 1
  {
    if s < n then (n - 1 - s) / k + 1 else 0
  }

  /** s, s+k, s+2k, ... below n. */
  function ResidueClass(s: nat, n: nat, k: nat): seq<int>
    requires k >= 1
  {
    seq(ClassSize(s, n, k), j => s + j * k)
  }

  /** The residue classes 0 .. s-1 one after another. */
  function SequentialPrefix(s: nat, n: nat, k: nat): seq<int>
    requires k >= 1
  {
    if s == 0 then [] else SequentialPrefix(s - 1, n, k) + ResidueClass(s - 1, n, k)
  }

  /** SEQUENTIAL: 0, k, 2k, ..., then 1, k+1, ..., up to residue k-1. */
  function SequentialOrder(n: nat, k: nat): seq<int>
    requires k >= 1
  {
    SequentialPrefix(k, n, k)
  }

  /** The order initTables builds for a mode. */
  ghost function Order(mode: SamplingMode, n: nat, k: int, draws: seq<int>): seq<int>
    requires k >= 1
    requires mode.Stochastic? ==> ValidDraws(draws, n)
  {
    match mode
    case Linear => Range(n)
    case NonOverlapping => NonOverlappingOrder(n, k)
    case Stochastic => Shuffled(Range(n), 0, draws)
    case Sequential => SequentialOrder(n, k)
  }

  // ------------------------------------------------------------ cursor

  /** The first index from `from` on whose position leaves at least minK symbols, or |order|. */
  function FirstAcceptable(order: seq<int>, n: int, minK: int, from: nat): (r: nat)
    requires from <= |order|
    ensures from <= r <= |order|
    ensures forall i :: from <= i < r ==> n - order[i] < minK
    ensures r < |order| ==> n - order[r] >= minK
    decreases |order| - from
  {
    if from == |order| then from
    else if n - order[from] >= minK then from
    else FirstAcceptable(order, n, minK, from + 1)
  }

  /** The window at p: k symbols, or the symbols left when fewer than k remain. */
  function WindowAt(s: seq<Byte>, p: nat, k: int): (r: seq<Byte>)
    requires p <= |s| && k >= 0
  {
    s[p .. p + Min(k, |s| - p)]
  }

  /** Java's int division of a by b > 0, rounding toward zero. */
  function JavaDiv(a: int, b: int): (r: int)
    requires b > 0
    ensures a >= 0 ==> r >= 0 && r * b <= a < (r + 1) * b
    ensures a < 0 ==> r <= 0 && (r - 1) * b < a <= r * b
  {
    if a >= 0 then DivBounds(a, b); a / b
    else DivBounds(-a, b); -((-a) / b)
  }

  /** Euclidean division of a non-negative number brackets it between two multiples. */
  lemma DivBounds(a: int, b: int)
    requires a >= 0 && b > 0
    ensures a / b >= 0 && (a / b) * b <= a < (a / b + 1) * b
    ensures (-(a / b) - 1) * b < -a <= -(a / b) * b
  {
    assert a == (a / b) * b + a % b;
    assert (a / b + 1) * b == (a / b) * b + b;
    assert (-(a / b) - 1) * b == -((a / b + 1) * b);
    assert -(a / b) * b == -((a / b) * b);
  }

  // ------------------------------------------------------------ lemmas

  /** NON_OVERLAPPING order: n/k+1 slots, slot j is j*k for j*k < n, and the last slot is 0 when k divides n. */
  lemma NonOverlappingOrderShape(n: nat, k: nat)
    requires k >= 1
    ensures |NonOverlappingOrder(n, k)| == n / k + 1
    ensures forall j :: 0 <= j < n / k ==> NonOverlappingOrder(n, k)[j] == j * k
    ensures NonOverlappingOrder(n, k)[n / k] == if n % k == 0 then 0 else n / k * k
  {
    forall j | 0 <= j < n / k ensures j * k < n {
      MulMono(j + 1, n / k, k);
      assert (j + 1) * k == j * k + k;
    }
  }

  /** One exchange of the shuffle, after which the shuffle goes on from i + 1 with the same draws. */
  lemma ShuffleStep(a: seq<int>, i: nat, draws: seq<int>) returns (b: seq<int>)
    requires ValidDraws(draws, |a|) && i + 1 < |a|
    ensures b == Swap(a, i, i + draws[i]) && ValidDraws(draws, |b|)
    ensures multiset(b) == multiset(a)
    ensures Shuffled(a, i, draws) == Shuffled(b, i + 1, draws)
  {
    b := Swap(a, i, i + draws[i]);
    SwapKeepsElements(a, i, i + draws[i]);
  }

  /** A shuffle only exchanges elements: the result is a permutation of its input. */
  lemma {:induction false} ShuffledIsPermutation(a: seq<int>, i: nat, draws: seq<int>)
    requires ValidDraws(draws, |a|)
    ensures |Shuffled(a, i, draws)| == |a|
    ensures multiset(Shuffled(a, i, draws)) == multiset(a)
    decreases |a| - i
  {
    if i + 1 < |a| {
      var b := ShuffleStep(a, i, draws);
      ShuffledIsPermutation(b, i + 1, draws);
    }
  }

  /** STOCHASTIC: for any draws in range, the order is a permutation of [0, len). */
  lemma ShuffledOrderIsPermutation(len: nat, draws: seq<int>)
    requires ValidDraws(draws, len)
    ensures |Shuffled(Range(len), 0, draws)| == len
    ensures multiset(Shuffled(Range(len), 0, draws)) == multiset(Range(len))
    ensures forall x :: x in Shuffled(Range(len), 0, draws) <==> 0 <= x < len
  {
    ShuffledIsPermutation(Range(len), 0, draws);
    var r := Shuffled(Range(len), 0, draws);
    forall x ensures x in r <==> 0 <= x < len {
      assert x in r <==> x in multiset(r);
      assert x in Range(len) <==> x in multiset(Range(len));
      if 0 <= x < len { assert Range(len)[x] == x; }
    }
  }

  /** Reproducibility: only the first len - 1 draws matter, so equal draws give equal orders. */
  lemma {:induction false} SameDrawsSameOrder(a: seq<int>, i: nat, d1: seq<int>, d2: seq<int>)
    requires ValidDraws(d1, |a|) && ValidDraws(d2, |a|)
    requires forall t :: i <= t < |a| - 1 ==> d1[t] == d2[t]
    ensures Shuffled(a, i, d1) == Shuffled(a, i, d2)
    decreases |a| - i
  {
    if i + 1 < |a| {
      assert d1[i] == d2[i];
      var b := Swap(a, i, i + d1[i]);
      assert Shuffled(a, i, d1) == Shuffled(b, i + 1, d1);
      assert Shuffled(a, i, d2) == Shuffled(b, i + 1, d2);
      SameDrawsSameOrder(b, i + 1, d1, d2);
    }
  }

  /** s + j*k stays below n exactly for the first ClassSize(s, n, k) values of j. */
  lemma ClassBound(s: nat, j: nat, n: nat, k: nat)
    requires k >= 1
    ensures s + j * k < n <==> j < ClassSize(s, n, k)
  {
    if s < n {
      var q := (n - 1 - s) / k;
      assert q * k <= n - 1 - s < q * k + k;
      if j <= q {
        assert j * k <= q * k by { MulMono(j, q, k); }
      } else {
        assert j * k >= q * k + k by { MulMono(q + 1, j, k); }
      }
    } else {
      assert j * k >= 0;
    }
  }

  lemma MulMono(a: nat, b: nat, k: nat)
    requires a <= b
    ensures a * k <= b * k
  {
    assert b * k == a * k + (b - a) * k;
  }

  /** A class holds at most n/k + 1 positions, so the source's inner loop bound reaches all of them. */
  lemma ClassSizeBound(s: nat, n: nat, k: nat)
    requires k >= 1
    ensures ClassSize(s, n, k) <= n / k + 1
  {
    if s < n {
      DivMono(n - 1 - s, n, k);
    }
  }

  lemma DivMono(a: nat, b: nat, k: nat)
    requires k >= 1 && a <= b
    ensures a / k <= b / k
  {
    if a / k > b / k {
      MulMono(b / k + 1, a / k, k);
    }
  }

  /** Slot j is reached at step i exactly when j*k == i. */
  lemma SlotStep(i: nat, j: nat, k: nat)
    requires k >= 1
    ensures j * k < i + 1 <==> j * k < i || (i % k == 0 && j == i / k)
  {
    assert i == i / k * k + i % k;
    if j * k == i {
      ClassElement(0, j, k);
    }
  }

  /** Position p < n lies in the residue class of p % k, as its (p / k)-th element. */
  lemma InOwnClass(p: nat, n: nat, k: nat)
    requires k >= 1 && p < n
    ensures p / k < ClassSize(p % k, n, k)
    ensures ResidueClass(p % k, n, k)[p / k] == p
  {
    assert p == p % k + p / k * k;
    ClassBound(p % k, p / k, n, k);
  }

  /** Position p < n is a member of the class of its residue. */
  lemma InClass(p: nat, n: nat, k: nat, s: nat)
    requires k >= 1 && p < n && p % k == s
    ensures p in ResidueClass(s, n, k)
  {
    InOwnClass(p, n, k);
    assert ResidueClass(s, n, k)[p / k] == p;
  }

  /** Residue and order of an element of a class. */
  lemma ClassElement(s: nat, j: nat, k: nat)
    requires k >= 1 && s < k
    ensures (s + j * k) % k == s
  {
    var x := s + j * k;
    assert x == x / k * k + x % k;
    if x / k > j {
      MulMono(j + 1, x / k, k);
    } else if x / k < j {
      MulMono(x / k + 1, j, k);
    }
  }

  /** The (p mod k, p) order used by SEQUENTIAL, strictly. */
  predicate KeyBefore(p: int, q: int, k: int)
    requires k >= 1
  {
    p % k < q % k || (p % k == q % k && p < q)
  }

  /** A class lies below n, has residue s and increases strictly. */
  lemma ResidueClassFacts(s: nat, n: nat, k: nat)
    requires k >= 1 && s < k
    ensures var c := ResidueClass(s, n, k);
      (forall j :: 0 <= j < |c| ==> 0 <= c[j] < n && c[j] % k == s)
      && (forall i, j :: 0 <= i < j < |c| ==> c[i] < c[j])
  {
    var c := ResidueClass(s, n, k);
    forall j | 0 <= j < |c| ensures 0 <= c[j] < n && c[j] % k == s {
      ClassBound(s, j, n, k);
      ClassElement(s, j, k);
    }
    forall i, j | 0 <= i < j < |c| ensures c[i] < c[j] {
      MulMono(i + 1, j, k);
      assert (i + 1) * k == i * k + k;
    }
  }

  /** The first s classes lie below n and have residues below s. */
  lemma {:induction false} SequentialPrefixRange(s: nat, n: nat, k: nat)
    requires k >= 1 && s <= k
    ensures forall i :: 0 <= i < |SequentialPrefix(s, n, k)| ==>
      0 <= SequentialPrefix(s, n, k)[i] < n && SequentialPrefix(s, n, k)[i] % k < s
  {
    if s > 0 {
      SequentialPrefixRange(s - 1, n, k);
      ResidueClassFacts(s - 1, n, k);
      var a := SequentialPrefix(s - 1, n, k);
      var c := ResidueClass(s - 1, n, k);
      var r := a + c;
      assert SequentialPrefix(s, n, k) == r;
      forall i | 0 <= i < |r| ensures 0 <= r[i] < n && r[i] % k < s {
        if i < |a| {
          assert r[i] == a[i];
          assert a[i] % k < s - 1;
        } else {
          var j := i - |a|;
          assert r[i] == c[j];
          assert c[j] % k == s - 1;
        }
      }
    }
  }

  /** The first s classes increase strictly in the (p mod k, p) order. */
  lemma {:induction false} SequentialPrefixOrdered(s: nat, n: nat, k: nat)
    requires k >= 1 && s <= k
    ensures forall i, j :: 0 <= i < j < |SequentialPrefix(s, n, k)| ==>
      KeyBefore(SequentialPrefix(s, n, k)[i], SequentialPrefix(s, n, k)[j], k)
  {
    if s > 0 {
      SequentialPrefixOrdered(s - 1, n, k);
      SequentialPrefixRange(s - 1, n, k);
      ResidueClassFacts(s - 1, n, k);
      var a := SequentialPrefix(s - 1, n, k);
      var c := ResidueClass(s - 1, n, k);
      var r := a + c;
      assert SequentialPrefix(s, n, k) == r;
      forall i, j | 0 <= i < j < |r| ensures KeyBefore(r[i], r[j], k) {
        if j < |a| {
          assert r[i] == a[i] && r[j] == a[j];
          assert KeyBefore(a[i], a[j], k);
        } else if i < |a| {
          assert r[i] == a[i] && r[j] == c[j - |a|];
          assert a[i] % k < s - 1 && c[j - |a|] % k == s - 1;
        } else {
          assert r[i] == c[i - |a|] && r[j] == c[j - |a|];
          assert c[i - |a|] % k == s - 1 && c[j - |a|] % k == s - 1;
          assert c[i - |a|] < c[j - |a|];
        }
      }
    }
  }

  /** The first s classes contain every p < n with p mod k < s. */
  lemma {:induction false} SequentialPrefixComplete(s: nat, n: nat, k: nat)
    requires k >= 1 && s <= k
    ensures forall p :: 0 <= p < n && p % k < s ==> p in SequentialPrefix(s, n, k)
  {
    if s > 0 {
      SequentialPrefixComplete(s - 1, n, k);
      var a := SequentialPrefix(s - 1, n, k);
      var c := ResidueClass(s - 1, n, k);
      assert SequentialPrefix(s, n, k) == a + c;
      forall p | 0 <= p < n && p % k < s ensures p in a + c {
        if p % k == s - 1 {
          InClass(p, n, k, s - 1);
        } else {
          assert p in a;
        }
      }
    }
  }

  /** Classes from n on are empty, so stopping the outer loop at n < k changes nothing. */
  lemma {:induction false} SequentialPrefixStable(s: nat, n: nat, k: nat)
    requires k >= 1 && n <= s
    ensures SequentialPrefix(s, n, k) == SequentialPrefix(n, n, k)
    decreases s
  {
    if s > n {
      SequentialPrefixStable(s - 1, n, k);
      assert ResidueClass(s - 1, n, k) == [];
    }
  }

  /** Prefix lengths grow with s. */
  lemma {:induction false} SequentialPrefixGrows(s: nat, t: nat, n: nat, k: nat)
    requires k >= 1 && s <= t
    ensures |SequentialPrefix(s, n, k)| <= |SequentialPrefix(t, n, k)|
    decreases t
  {
    if s < t {
      SequentialPrefixGrows(s, t - 1, n, k);
    }
  }

  /** SEQUENTIAL: a permutation of [0, n), ordered by residue class and then by position. */
  lemma SequentialOrderIsPermutation(n: nat, k: nat)
    requires k >= 1
    ensures multiset(SequentialOrder(n, k)) == multiset(Range(n))
    ensures |SequentialOrder(n, k)| == n
    ensures forall i, j :: 0 <= i < j < n ==> KeyBefore(SequentialOrder(n, k)[i], SequentialOrder(n, k)[j], k)
  {
    var r := SequentialOrder(n, k);
    SequentialPrefixRange(k, n, k);
    SequentialPrefixOrdered(k, n, k);
    SequentialPrefixComplete(k, n, k);
    assert r == SequentialPrefix(k, n, k);
    assert Distinct(r) by {
      forall i, j | 0 <= i < j < |r| ensures r[i] != r[j] {
        assert KeyBefore(r[i], r[j], k);
      }
    }
    forall x ensures x in r <==> x in Range(n) {
      if 0 <= x < n { assert Range(n)[x] == x; assert x % k < k; }
      if x in r { var i :| 0 <= i < |r| && r[i] == x; }
    }
    DistinctSameElementsArePermutations(r, Range(n));
    assert |r| == |multiset(r)| == |multiset(Range(n))| == n;
  }

  /** An order never has more than n + 1 positions. */
  lemma OrderLengthBound(mode: SamplingMode, n: nat, k: int)
    requires k >= 1
    ensures OrderLength(mode, n, k) <= n + 1
  {
    MulMono(1, k, n / k);
  }

  /** The ambiguity flags after the source's loop over the first i symbols. */
  ghost predicate FlaggedUpTo(s: string, k: int, isAmbiguous: char -> bool, p: int, i: int)
  {
    exists t :: p <= t < p + k && 0 <= t < i && t < |s| && isAmbiguous(s[t])
  }

  /** One more symbol scanned: the flag gains exactly the windows that cover it, if it is ambiguous. */
  lemma FlaggedStep(s: string, k: int, isAmbiguous: char -> bool, p: int, i: int)
    requires 0 <= i < |s|
    ensures FlaggedUpTo(s, k, isAmbiguous, p, i + 1)
        <==> FlaggedUpTo(s, k, isAmbiguous, p, i) || (isAmbiguous(s[i]) && p <= i < p + k)
  {
    if FlaggedUpTo(s, k, isAmbiguous, p, i + 1) && !FlaggedUpTo(s, k, isAmbiguous, p, i) {
      var t :| p <= t < p + k && 0 <= t < i + 1 && t < |s| && isAmbiguous(s[t]);
      assert t == i;
    }
  }

  // ------------------------------------------------------------ the knife

  class SequenceKnife {
    const k: int
    const minK: int
    /** Index into merOrder of the next window to hand out. */
    var iter: int
    /** The encoded sequence. */
    var sequence: array<Byte>
    /** The order in which window start positions are handed out. */
    var merOrder: array<int>
    var step: int
    /** ambiguousKmer[p]: the window starting at p covers an ambiguous symbol. */
    var ambiguousKmer: array<bool>
    /** The sampling mode the tables were built with. */
    ghost var mode: SamplingMode

    ghost predicate Valid()
      reads this, merOrder
    {
      && 1 <= minK <= k
      && ambiguousKmer.Length == sequence.Length
      && merOrder.Length == OrderLength(mode, sequence.Length, k)
      && (forall i :: 0 <= i < merOrder.Length ==> 0 <= merOrder[i] <= sequence.Length)
      && 0 <= iter <= merOrder.Length
      && step == StepOf(mode, k)
    }

    /** A knife over text in the given sampling mode, its cursor at the start. */
    constructor (text: string, k: int, minK: int, isAmbiguous: char -> bool, samplingMode: SamplingMode, draws: seq<int>)
      requires 1 <= minK <= k
      requires Encodable(text)
      requires samplingMode.Stochastic? ==> ValidDraws(draws, |text|)
      ensures Valid()
      ensures this.k == k && this.minK == minK && mode == samplingMode && iter == 0
      ensures sequence[..] == Encoded(text)
      ensures forall p :: 0 <= p < |text| ==> (ambiguousKmer[p] <==> FlaggedWindow(text, k, isAmbiguous, p))
      ensures merOrder[..] == Order(samplingMode, |text|, k, draws)
      ensures step == StepOf(samplingMode, k)
    {
      this.k := k;
      this.minK := minK;
      iter := 0;
      sequence := new Byte[0];
      merOrder := new int[0];
      ambiguousKmer := new bool[0];
      step := -1;
      mode := samplingMode;
      new;
      InitTables(text, samplingMode, isAmbiguous, draws);
    }

    /** initTables: encodes the sequence, marks ambiguous windows and builds the position order. */
    method InitTables(text: string, samplingMode: SamplingMode, isAmbiguous: char -> bool, draws: seq<int>)
      requires 1 <= minK <= k && iter == 0
      requires Encodable(text)
      requires samplingMode.Stochastic? ==> ValidDraws(draws, |text|)
      modifies this
      ensures Valid()
      ensures fresh(sequence) && fresh(merOrder) && fresh(ambiguousKmer)
      ensures mode == samplingMode && iter == 0
      ensures sequence[..] == Encoded(text)
      ensures forall p :: 0 <= p < |text| ==> (ambiguousKmer[p] <==> FlaggedWindow(text, k, isAmbiguous, p))
      ensures merOrder[..] == Order(samplingMode, |text|, k, draws)
      ensures step == StepOf(samplingMode, k)
    {
      var n := |text|;
      var codes, flags := EncodeAndMark(text, isAmbiguous);
      sequence := codes;
      ambiguousKmer := flags;
      mode := samplingMode;
      match samplingMode {
        case Linear =>
          merOrder := LinearMerOrder(n);
          step := 1;
        case NonOverlapping =>
          merOrder := NonOverlappingMerOrder(n);
          step := k;
        case Stochastic =>
          merOrder := new int[n](_ => 0);
          ShuffledMerOrder(draws);
          step := 1;
        case Sequential =>
          merOrder := new int[n](_ => 0);
          SequencialMerOrder();
          step := 1;
      }
      OrderInRange(samplingMode, n, draws);
      forall i | 0 <= i < merOrder.Length ensures 0 <= merOrder[i] <= n {
        assert merOrder[i] in merOrder[..];
      }
    }

    /** The first half of initTables: the codes of the sequence and the flags of the windows covering an ambiguous symbol. */
    method EncodeAndMark(text: string, isAmbiguous: char -> bool) returns (codes: array<Byte>, flags: array<bool>)
      requires k >= 1
      requires Encodable(text)
      ensures fresh(codes) && fresh(flags)
      ensures codes[..] == Encoded(text)
      ensures flags.Length == |text|
      ensures forall p :: 0 <= p < |text| ==> (flags[p] <==> FlaggedWindow(text, k, isAmbiguous, p))
    {
      var n := |text|;
      codes := new Byte[n];
      flags := new bool[n](_ => false);
      for i := 0 to n
        invariant forall t :: 0 <= t < i ==> codes[t] == StateToByte(text[t]).value
        invariant forall p :: 0 <= p < n ==> (flags[p] <==> FlaggedUpTo(text, k, isAmbiguous, p, i))
      {
        codes[i] := StateToByte(text[i]).value;
        if isAmbiguous(text[i]) {
          FlagCoveringWindows(flags, i);
        }
        forall p | 0 <= p < n
          ensures (flags[p] <==> FlaggedUpTo(text, k, isAmbiguous, p, i + 1))
        {
          FlaggedStep(text, k, isAmbiguous, p, i);
        }
      }
      assert codes[..] == Encoded(text);
      forall p | 0 <= p < n ensures (flags[p] <==> FlaggedWindow(text, k, isAmbiguous, p)) {
        assert FlaggedUpTo(text, k, isAmbiguous, p, n) <==> FlaggedWindow(text, k, isAmbiguous, p);
      }
    }

    /** Every window start i-k+1 .. i covers position i: those flags are raised, the others stay. */
    method FlagCoveringWindows(flags: array<bool>, i: int)
      requires k >= 1 && 0 <= i < flags.Length
      modifies flags
      ensures forall p :: 0 <= p < flags.Length ==> (flags[p] <==> old(flags[p]) || (i - k + 1 <= p <= i))
    {
      var j := i - k + 1;
      while j < i + 1
        invariant i - k + 1 <= j <= i + 1
        invariant forall p :: 0 <= p < flags.Length ==> (flags[p] <==> old(flags[p]) || (i - k + 1 <= p < j))
      {
        if j > -1 && j < flags.Length + 1 {
          flags[j] := true;
        }
        j := j + 1;
      }
    }

    /** The LINEAR branch of initTables: positions 0 .. n-1 in order. */
    method LinearMerOrder(n: nat) returns (order: array<int>)
      ensures fresh(order)
      ensures order[..] == Range(n)
    {
      order := new int[n](_ => 0);
      for i := 0 to order.Length
        invariant forall t :: 0 <= t < i ==> order[t] == t
      {
        order[i] := i;
      }
    }

    /** The NON_OVERLAPPING branch of initTables: every k-th position, in a table of n/k + 1 slots. */
    method NonOverlappingMerOrder(n: nat) returns (order: array<int>)
      requires k >= 1
      ensures fresh(order)
      ensures order[..] == NonOverlappingOrder(n, k)
    {
      order := new int[n / k + 1](_ => 0);
      for i := 0 to n
        invariant forall j :: 0 <= j < order.Length ==> order[j] == if j * k < i then j * k else 0
      {
        if i % k == 0 {
          DivMono(i, n, k);
          order[i / k] := i;
        }
        forall j | 0 <= j < order.Length ensures order[j] == if j * k < i + 1 then j * k else 0 {
          SlotStep(i, j, k);
        }
      }
    }

    /** The orders only hold positions in [0, n]. */
    lemma OrderInRange(samplingMode: SamplingMode, n: nat, draws: seq<int>)
      requires k >= 1
      requires samplingMode.Stochastic? ==> ValidDraws(draws, n)
      ensures |Order(samplingMode, n, k, draws)| == OrderLength(samplingMode, n, k)
      ensures forall x :: x in Order(samplingMode, n, k, draws) ==> 0 <= x <= n
    {
      match samplingMode {
        case Linear =>
        case NonOverlapping =>
        case Stochastic => ShuffledOrderIsPermutation(n, draws);
        case Sequential =>
          SequentialOrderIsPermutation(n, k);
          var r := SequentialOrder(n, k);
          forall x | x in r ensures 0 <= x <= n {
            assert x in multiset(r);
            assert x in multiset(Range(n));
          }
      }
    }

    /** shuffledMerOrder: [0, len) shuffled in place with the given draws. */
    method ShuffledMerOrder(draws: seq<int>)
      requires ValidDraws(draws, merOrder.Length)
      modifies merOrder
      ensures merOrder[..] == Shuffled(Range(merOrder.Length), 0, draws)
    {
      for i := 0 to merOrder.Length
        invariant forall t :: 0 <= t < i ==> merOrder[t] == t
      {
        merOrder[i] := i;
      }
      assert merOrder[..] == Range(merOrder.Length);
      var i := 0;
      while i < merOrder.Length - 1
        invariant 0 <= i <= merOrder.Length
        invariant Shuffled(merOrder[..], i, draws) == Shuffled(Range(merOrder.Length), 0, draws)
      {
        // j = i + generator.nextInt(merOrder.length - i)
        var j := i + draws[i];
        ghost var before := merOrder[..];
        var t := merOrder[j];
        merOrder[j] := merOrder[i];
        merOrder[i] := t;
        assert merOrder[..] == Swap(before, i, j);
        i := i + 1;
      }
    }

    /** sequencialMerOrder: the residue classes modulo k one after another. */
    method SequencialMerOrder()
      requires k >= 1
      requires forall t :: 0 <= t < merOrder.Length ==> merOrder[t] == 0
      modifies merOrder
      ensures merOrder[..] == SequentialOrder(merOrder.Length, k)
    {
      var n := merOrder.Length;
      SequentialOrderIsPermutation(n, k);
      var counter := 0;
      var shift := 0;
      for i := 0 to n
        invariant shift == i && shift <= k
        invariant counter == |SequentialPrefix(shift, n, k)| <= n
        invariant merOrder[..counter] == SequentialPrefix(shift, n, k)
      {
        if shift == k {
          break;
        }
        SequentialPrefixGrows(shift + 1, k, n, k);
        ClassSizeBound(shift, n, k);
        ghost var prefix := SequentialPrefix(shift, n, k);
        ghost var cls := ResidueClass(shift, n, k);
        ghost var size := ClassSize(shift, n, k);
        assert SequentialPrefix(shift + 1, n, k) == prefix + cls;
        for j := 0 to n / k + 1
          invariant counter == |prefix| + Min(j, size)
          invariant merOrder[..counter] == prefix + cls[..Min(j, size)]
        {
          ClassBound(shift, j, n, k);
          if shift + j * k < n {
            assert cls[j] == shift + j * k;
            assert cls[..j + 1] == cls[..j] + [cls[j]];
            merOrder[counter] := shift + j * k;
            assert merOrder[..counter + 1] == merOrder[..counter] + [shift + j * k];
            counter := counter + 1;
          }
        }
        assert cls[..size] == cls;
        shift := shift + 1;
      }
      if shift < k {
        SequentialPrefixStable(k, n, k);
      }
      assert merOrder[..] == merOrder[..counter];
    }

    /** forceSeed: reshuffles the current order as [0, merOrder.length) with new draws. */
    method ForceSeed(draws: seq<int>)
      requires Valid()
      requires ValidDraws(draws, merOrder.Length)
      modifies merOrder
      ensures Valid()
      ensures merOrder[..] == Shuffled(Range(merOrder.Length), 0, draws)
    {
      OrderLengthBound(mode, sequence.Length, k);
      ShuffledMerOrder(draws);
      ShuffledOrderIsPermutation(merOrder.Length, draws);
      forall i | 0 <= i < merOrder.Length ensures 0 <= merOrder[i] <= sequence.Length {
        assert merOrder[i] in merOrder[..];
      }
    }

    /**
     * The retry of getNextWord and getNextByteWord after a window with fewer
     * than minK symbols left, written as a loop: the cursor moves to the
     * first acceptable position, or to the end.
     */
    method SkipShortWindows()
      requires Valid()
      modifies this`iter
      ensures Valid()
      ensures iter == FirstAcceptable(merOrder[..], sequence.Length, minK, old(iter))
    {
      while iter < merOrder.Length && sequence.Length - merOrder[iter] < minK
        invariant old(iter) <= iter <= merOrder.Length
        invariant FirstAcceptable(merOrder[..], sequence.Length, minK, iter)
               == FirstAcceptable(merOrder[..], sequence.Length, minK, old(iter))
      {
        iter := iter + 1;
      }
    }

    /** getNextWord: the next window leaving at least minK symbols, ambiguous or not; None once past the end. */
    method GetNextWord() returns (w: Option<QueryWord>)
      requires Valid()
      modifies this`iter
      ensures Valid()
      ensures var r := FirstAcceptable(merOrder[..], sequence.Length, minK, old(iter));
        if r == merOrder.Length then w == None && iter == r
        else w == Some(QueryWord(WindowAt(sequence[..], merOrder[r], k), merOrder[r])) && iter == r + 1
    {
      SkipShortWindows();
      if iter > merOrder.Length - 1 {
        return None;
      }
      var currentPosition := merOrder[iter];
      var charactersLeft := sequence.Length - currentPosition;
      var word: seq<Byte>;
      if charactersLeft < k {
        word := sequence[currentPosition .. currentPosition + charactersLeft];
      } else {
        word := sequence[currentPosition .. currentPosition + k];
      }
      assert word == WindowAt(sequence[..], currentPosition, k);
      iter := iter + 1;
      w := Some(QueryWord(word, currentPosition));
    }

    /** getNextByteWord: as getNextWord, but a flagged window gives the AMBIGUOUS_KMER sentinel. */
    method GetNextByteWord() returns (w: ByteWord)
      requires Valid()
      modifies this`iter
      ensures Valid()
      ensures var r := FirstAcceptable(merOrder[..], sequence.Length, minK, old(iter));
        if r == merOrder.Length then w == Exhausted && iter == r
        else if ambiguousKmer[merOrder[r]] then w == AmbiguousKmer && iter == r + 1
        else w == Window(WindowAt(sequence[..], merOrder[r], k)) && iter == r + 1
    {
      SkipShortWindows();
      if iter > merOrder.Length - 1 {
        return Exhausted;
      }
      var currentPosition := merOrder[iter];
      var charactersLeft := sequence.Length - currentPosition;
      if ambiguousKmer[currentPosition] {
        iter := iter + 1;
        return AmbiguousKmer;
      }
      var word: seq<Byte>;
      if charactersLeft < k {
        word := sequence[currentPosition .. currentPosition + charactersLeft];
      } else {
        word := sequence[currentPosition .. currentPosition + k];
      }
      assert word == WindowAt(sequence[..], currentPosition, k);
      iter := iter + 1;
      w := Window(word);
    }

    /** getMerCount: the number of positions in the order. */
    function GetMerCount(): (r: int)
      reads this, merOrder
      requires Valid()
      ensures mode.NonOverlapping? ==> r == sequence.Length / k + 1
      ensures !mode.NonOverlapping? ==> r == sequence.Length
    {
      merOrder.Length
    }

    /** getMaxMerCount: (n - k + 1) / step with Java's division. */
    function GetMaxMerCount(): (r: int)
      reads this, merOrder
      requires Valid()
      ensures r == JavaDiv(sequence.Length - k + 1, step)
      ensures step == 1 ==> r == sequence.Length - k + 1
    {
      JavaDiv(sequence.Length - k + 1, step)
    }

    /** getStep */
    function GetStep(): (r: int)
      reads this, merOrder
      requires Valid()
      ensures r == if mode.NonOverlapping? then k else 1
      ensures r >= 1
    {
      step
    }
  }
}
