/**
 * The natural-sort key of gradio-example.py: `re.split(r"(\d+)", s)` cuts a
 * name into alternating non-digit and digit runs; digit runs become integers
 * and the other runs are lowercased. Keys are compared as Python compares lists,
 * and `sorted(..., key=natural_key)` is modelled by a stable insertion sort.
 */
module NaturalSort {
  import opened Strings

  function Concat(parts: seq<string>): string {
    if parts == [] then [] else parts[0] + Concat(parts[1..])
  }

  /**
   * The runs of `[c] + t` from the runs `parts` of `t`: a non-digit joins the
   * leading text run; a digit joins the digit run that follows it, or starts
   * a new one when text or nothing follows.
   */
  function SplitStep(c: char, parts: seq<string>): seq<string>
    requires parts != []
  {
    if !IsDigit(c) then [[c] + parts[0]] + parts[1..]
    else if parts[0] == [] && |parts| > 1 then [[], [c] + parts[1]] + parts[2..]
    else [[], [c]] + parts
  }

  /**
   * `re.split(r"(\d+)", s)`, built from the back one character at a time.
   */
  function SplitDigitRuns(s: string): (parts: seq<string>)
    ensures |parts| % 2 == 1
    decreases |s|
  {
    if s == [] then [[]] else SplitStep(s[0], SplitDigitRuns(s[1..]))
  }

  lemma ConcatCons(p: string, rest: seq<string>)
    ensures Concat([p] + rest) == p + Concat(rest)
  {
    assert ([p] + rest)[1..] == rest;
  }

  lemma ConcatEmptyFront(x: string, rest: seq<string>)
    ensures Concat([[], x] + rest) == x + Concat(rest)
  {
    ConcatCons([], [x] + rest);
    assert ([[], x] + rest)[1..] == [x] + rest;
    ConcatCons(x, rest);
  }

  /** A step puts its character in front of what the runs join to. */
  lemma ConcatStep(c: char, parts: seq<string>)
    requires parts != []
    ensures Concat(SplitStep(c, parts)) == [c] + Concat(parts)
  {
    var p0, tail := parts[0], parts[1..];
    assert Concat(parts) == p0 + Concat(tail) by {
      assert parts == [p0] + tail;
      ConcatCons(p0, tail);
    }
    if !IsDigit(c) {
      ConcatCons([c] + p0, tail);
    } else if p0 == [] && |parts| > 1 {
      var p1, more := parts[1], parts[2..];
      assert parts == [[], p1] + more;
      ConcatEmptyFront(p1, more);
      ConcatEmptyFront([c] + p1, more);
    } else {
      ConcatEmptyFront([c], parts);
    }
  }

  /** The runs put back together give the name again. */
  lemma {:induction false} SplitDigitRunsConcat(s: string)
    ensures Concat(SplitDigitRuns(s)) == s
    decreases |s|
  {
    if s != [] {
      SplitDigitRunsConcat(s[1..]);
      ConcatStep(s[0], SplitDigitRuns(s[1..]));
      assert s == [s[0]] + s[1..];
    }
  }

  lemma NoDigitsCons(c: char, t: string)
    requires !IsDigit(c) && NoDigits(t)
    ensures NoDigits([c] + t)
  {
    assert forall j :: 0 < j <= |t| ==> ([c] + t)[j] == t[j - 1];
  }

  lemma AllDigitsCons(c: char, t: string)
    requires IsDigit(c) && AllDigits(t)
    ensures AllDigits([c] + t)
  {
    assert forall j :: 0 < j <= |t| ==> ([c] + t)[j] == t[j - 1];
  }

  /** Even positions hold runs without digits. */
  lemma {:induction false} SplitDigitRunsText(s: string)
    ensures forall i :: 0 <= i < |SplitDigitRuns(s)| && i % 2 == 0 ==> NoDigits(SplitDigitRuns(s)[i])
    decreases |s|
  {
    if s != [] {
      var c, rest := s[0], SplitDigitRuns(s[1..]);
      var parts := SplitDigitRuns(s);
      SplitDigitRunsText(s[1..]);
      if !IsDigit(c) {
        NoDigitsCons(c, rest[0]);
        forall i | 1 <= i < |parts| && i % 2 == 0 ensures NoDigits(parts[i]) {
          assert parts[i] == rest[i];
        }
      } else if rest[0] == [] && |rest| > 1 {
        forall i | 2 <= i < |parts| && i % 2 == 0 ensures NoDigits(parts[i]) {
          assert parts[i] == rest[i];
        }
      } else {
        forall i | 2 <= i < |parts| && i % 2 == 0 ensures NoDigits(parts[i]) {
          assert parts[i] == rest[i - 2];
        }
      }
    }
  }

  /** Odd positions hold non-empty runs of digits. */
  lemma {:induction false} SplitDigitRunsDigits(s: string)
    ensures forall i :: 0 <= i < |SplitDigitRuns(s)| && i % 2 == 1 ==>
      SplitDigitRuns(s)[i] != [] && AllDigits(SplitDigitRuns(s)[i])
    decreases |s|
  {
    if s != [] {
      var c, rest := s[0], SplitDigitRuns(s[1..]);
      var parts := SplitDigitRuns(s);
      SplitDigitRunsDigits(s[1..]);
      if !IsDigit(c) {
        forall i | 1 <= i < |parts| && i % 2 == 1 ensures parts[i] != [] && AllDigits(parts[i]) {
          assert parts[i] == rest[i];
        }
      } else if rest[0] == [] && |rest| > 1 {
        AllDigitsCons(c, rest[1]);
        forall i | 2 <= i < |parts| && i % 2 == 1 ensures parts[i] != [] && AllDigits(parts[i]) {
          assert parts[i] == rest[i];
        }
      } else {
        assert AllDigits([c]);
        forall i | 2 <= i < |parts| && i % 2 == 1 ensures parts[i] != [] && AllDigits(parts[i]) {
          assert parts[i] == rest[i - 2];
        }
      }
    }
  }

  /** Only the first and the last run can be empty, so every digit run is maximal. */
  lemma {:induction false} SplitDigitRunsMaximal(s: string)
    ensures forall i :: 0 < i < |SplitDigitRuns(s)| - 1 && i % 2 == 0 ==> SplitDigitRuns(s)[i] != []
    decreases |s|
  {
    if s != [] {
      var c, rest := s[0], SplitDigitRuns(s[1..]);
      var parts := SplitDigitRuns(s);
      SplitDigitRunsMaximal(s[1..]);
      if !IsDigit(c) || (rest[0] == [] && |rest| > 1) {
        forall i | 0 < i < |parts| - 1 && i % 2 == 0 ensures parts[i] != [] {
          assert parts[i] == rest[i];
        }
      } else {
        forall i | 0 < i < |parts| - 1 && i % 2 == 0 ensures parts[i] != [] {
          assert parts[i] == rest[i - 2];
        }
      }
    }
  }

  datatype Chunk = Text(text: string) | Num(value: nat)

  /** One element of the key: `int(t) if t.isdigit() else t.lower()`. */
  function KeyPart(t: string): Chunk {
    if t != [] && AllDigits(t) then Num(DigitsValue(t)) else Text(Lower(t))
  }

  /** The list comprehension of `natural_key` over the runs. */
  function KeyParts(parts: seq<string>): (key: seq<Chunk>)
    ensures |key| == |parts|
  {
    if parts == [] then [] else [KeyPart(parts[0])] + KeyParts(parts[1..])
  }

  lemma {:induction false} KeyPartsIndex(parts: seq<string>)
    ensures forall i :: 0 <= i < |parts| ==> KeyParts(parts)[i] == KeyPart(parts[i])
  {
    if parts != [] {
      KeyPartsIndex(parts[1..]);
      forall i | 0 < i < |parts| ensures KeyParts(parts)[i] == KeyPart(parts[i]) {
        assert parts[i] == parts[1..][i - 1];
      }
    }
  }

  /** `natural_key(s)`. */
  function NaturalKey(s: string): seq<Chunk> {
    KeyParts(SplitDigitRuns(s))
  }

  /** Text and integers alternate in a key, starting and ending with text. */
  lemma NaturalKeyAlternates(s: string)
    ensures |NaturalKey(s)| % 2 == 1
    ensures forall i :: 0 <= i < |NaturalKey(s)| ==> (NaturalKey(s)[i].Num? <==> i % 2 == 1)
  {
    var parts := SplitDigitRuns(s);
    SplitDigitRunsText(s);
    SplitDigitRunsDigits(s);
    KeyPartsIndex(parts);
    var key := NaturalKey(s);
    forall i | 0 <= i < |parts| && i % 2 == 0 ensures key[i].Text? {
      if parts[i] != [] { assert !IsDigit(parts[i][0]); }
    }
  }

  /** Python's `<` on str: lexicographic by code point. */
  predicate TextLess(a: string, b: string)
    decreases |a|
  {
    if a == [] then b != []
    else if b == [] then false
    else a[0] < b[0] || (a[0] == b[0] && TextLess(a[1..], b[1..]))
  }

  /**
   * `<` on key elements. An integer and a string are never compared, because
   * keys alternate at the same positions (NaturalKeyAlternates); the
   * mixed cases are given a fixed order only to make the order total.
   */
  predicate ChunkLess(x: Chunk, y: Chunk) {
    match (x, y)
    case (Num(m), Num(n)) => m < n
    case (Text(s), Text(t)) => TextLess(s, t)
    case (Num(_), Text(_)) => true
    case (Text(_), Num(_)) => false
  }

  /** Python's `<` on lists: the first differing element decides, a proper prefix is smaller. */
  predicate KeyLess(a: seq<Chunk>, b: seq<Chunk>)
    decreases |a|
  {
    if a == [] then b != []
    else if b == [] then false
    else ChunkLess(a[0], b[0]) || (a[0] == b[0] && KeyLess(a[1..], b[1..]))
  }

  /** `natural_key(a) < natural_key(b)`. */
  predicate NaturalLess(a: string, b: string) {
    KeyLess(NaturalKey(a), NaturalKey(b))
  }

  lemma {:induction false} TextLessIrreflexive(a: string)
    ensures !TextLess(a, a)
  {
    if a != [] { TextLessIrreflexive(a[1..]); }
  }

  lemma {:induction false} TextLessTransitive(a: string, b: string, c: string)
    requires TextLess(a, b) && TextLess(b, c)
    ensures TextLess(a, c)
  {
    if a != [] && a[0] == b[0] && b[0] == c[0] {
      TextLessTransitive(a[1..], b[1..], c[1..]);
    }
  }

  lemma {:induction false} TextLessTotal(a: string, b: string)
    ensures TextLess(a, b) || a == b || TextLess(b, a)
  {
    if a != [] && b != [] && a[0] == b[0] {
      TextLessTotal(a[1..], b[1..]);
      assert a == [a[0]] + a[1..] && b == [b[0]] + b[1..];
    }
  }

  lemma ChunkLessIrreflexive(x: Chunk)
    ensures !ChunkLess(x, x)
  {
    if x.Text? { TextLessIrreflexive(x.text); }
  }

  lemma ChunkLessTransitive(x: Chunk, y: Chunk, z: Chunk)
    requires ChunkLess(x, y) && ChunkLess(y, z)
    ensures ChunkLess(x, z)
  {
    if x.Text? && y.Text? && z.Text? { TextLessTransitive(x.text, y.text, z.text); }
  }

  lemma ChunkLessTotal(x: Chunk, y: Chunk)
    ensures ChunkLess(x, y) || x == y || ChunkLess(y, x)
  {
    if x.Text? && y.Text? { TextLessTotal(x.text, y.text); }
  }

  lemma {:induction false} KeyLessIrreflexive(a: seq<Chunk>)
    ensures !KeyLess(a, a)
  {
    if a != [] {
      ChunkLessIrreflexive(a[0]);
      KeyLessIrreflexive(a[1..]);
    }
  }

  lemma {:induction false} KeyLessTransitive(a: seq<Chunk>, b: seq<Chunk>, c: seq<Chunk>)
    requires KeyLess(a, b) && KeyLess(b, c)
    ensures KeyLess(a, c)
  {
    if a != [] && b != [] && c != [] {
      if ChunkLess(a[0], b[0]) && ChunkLess(b[0], c[0]) {
        ChunkLessTransitive(a[0], b[0], c[0]);
      } else if a[0] == b[0] && b[0] == c[0] {
        KeyLessTransitive(a[1..], b[1..], c[1..]);
      }
    }
  }

  /** Two keys are either equal or ordered one way: ties in the sort are exactly equal keys. */
  lemma {:induction false} KeyLessTotal(a: seq<Chunk>, b: seq<Chunk>)
    ensures KeyLess(a, b) || a == b || KeyLess(b, a)
  {
    if a != [] && b != [] {
      ChunkLessTotal(a[0], b[0]);
      if a[0] == b[0] {
        KeyLessTotal(a[1..], b[1..]);
        assert a == [a[0]] + a[1..] && b == [b[0]] + b[1..];
      }
    }
  }

  /** An irreflexive, transitive "less than". */
  ghost predicate StrictOrder<T(!new)>(less: (T, T) -> bool) {
    && (forall a :: !less(a, a))
    && (forall a, b, c :: less(a, b) && less(b, c) ==> less(a, c))
  }

  /** Comparing names by natural key is a strict order. */
  lemma NaturalLessStrictOrder()
    ensures StrictOrder(NaturalLess)
  {
    forall a ensures !NaturalLess(a, a) {
      KeyLessIrreflexive(NaturalKey(a));
    }
    forall a, b, c | NaturalLess(a, b) && NaturalLess(b, c) ensures NaturalLess(a, c) {
      KeyLessTransitive(NaturalKey(a), NaturalKey(b), NaturalKey(c));
    }
  }

  /** No later element is less than an earlier one. */
  ghost predicate SortedBy<T>(xs: seq<T>, less: (T, T) -> bool) {
    forall i, j :: 0 <= i < j < |xs| ==> !less(xs[j], xs[i])
  }

  lemma SortedByTail<T>(ys: seq<T>, less: (T, T) -> bool)
    requires ys != [] && SortedBy(ys, less)
    ensures SortedBy(ys[1..], less)
  {
    forall i, j | 0 <= i < j < |ys[1..]| ensures !less(ys[1..][j], ys[1..][i]) {
      assert ys[1..][j] == ys[j + 1] && ys[1..][i] == ys[i + 1];
    }
  }

  /** Inserts `x` after every element that is not greater (so equal elements keep their order). */
  function InsertBy<T>(x: T, ys: seq<T>, less: (T, T) -> bool): (r: seq<T>)
    ensures multiset(r) == multiset(ys) + multiset{x}
  {
    if ys == [] then [x]
    else if less(x, ys[0]) then [x] + ys
    else
      assert ys == [ys[0]] + ys[1..];
      [ys[0]] + InsertBy(x, ys[1..], less)
  }

  lemma {:induction false} InsertBySorted<T(!new)>(x: T, ys: seq<T>, less: (T, T) -> bool)
    requires StrictOrder(less)
    requires SortedBy(ys, less)
    ensures SortedBy(InsertBy(x, ys, less), less)
  {
    var r := InsertBy(x, ys, less);
    if ys == [] {
    } else if less(x, ys[0]) {
      assert r == [x] + ys;
      forall i, j | 0 <= i < j < |r| ensures !less(r[j], r[i]) {
        if i == 0 {
          assert r[j] == ys[j - 1];
        } else {
          assert r[i] == ys[i - 1] && r[j] == ys[j - 1];
        }
      }
    } else {
      var tail := InsertBy(x, ys[1..], less);
      assert r == [ys[0]] + tail;
      SortedByTail(ys, less);
      InsertBySorted(x, ys[1..], less);
      forall i, j | 0 <= i < j < |r| ensures !less(r[j], r[i]) {
        if i == 0 {
          assert r[j] == tail[j - 1];
          assert r[j] in multiset(tail);
          assert r[j] == x || r[j] in multiset(ys[1..]);
          if r[j] != x {
            var k :| 0 <= k < |ys[1..]| && ys[1..][k] == r[j];
            assert ys[k + 1] == r[j];
          }
        } else {
          assert r[i] == tail[i - 1] && r[j] == tail[j - 1];
        }
      }
    }
  }

  /** Python's stable `sorted(xs, key=...)` for the order `less`, as an insertion sort. */
  function SortBy<T>(xs: seq<T>, less: (T, T) -> bool): (r: seq<T>)
    ensures multiset(r) == multiset(xs) && |r| == |xs|
  {
    if xs == [] then []
    else
      var init, last := xs[..|xs| - 1], xs[|xs| - 1];
      assert xs == init + [last];
      var r := InsertBy(last, SortBy(init, less), less);
      assert |r| == |multiset(r)|;
      r
  }

  lemma {:induction false} SortBySorted<T(!new)>(xs: seq<T>, less: (T, T) -> bool)
    requires StrictOrder(less)
    ensures SortedBy(SortBy(xs, less), less)
  {
    if xs != [] {
      var init := xs[..|xs| - 1];
      SortBySorted(init, less);
      InsertBySorted(xs[|xs| - 1], SortBy(init, less), less);
    }
  }

  /** `sorted(xs, key=natural_key)`. */
  function SortNatural(xs: seq<string>): seq<string> {
    SortBy(xs, NaturalLess)
  }

  /** No later name has a smaller natural key than an earlier one. */
  ghost predicate SortedNatural(xs: seq<string>) {
    SortedBy(xs, NaturalLess)
  }

  /** The sort is a permutation of its input, ordered by natural key. */
  lemma SortNaturalSpec(xs: seq<string>)
    ensures multiset(SortNatural(xs)) == multiset(xs) && |SortNatural(xs)| == |xs|
    ensures SortedNatural(SortNatural(xs))
  {
    NaturalLessStrictOrder();
    SortBySorted(xs, NaturalLess);
  }

  /** The elements of `xs` whose key is `k`, in their order in `xs`. */
  function WithKey<T, K(==)>(xs: seq<T>, key: T -> K, k: K): seq<T> {
    if xs == [] then [] else (if key(xs[0]) == k then [xs[0]] else []) + WithKey(xs[1..], key, k)
  }

  lemma {:induction false} WithKeyAppend<T, K>(a: seq<T>, b: seq<T>, key: T -> K, k: K)
    ensures WithKey(a + b, key, k) == WithKey(a, key, k) + WithKey(b, key, k)
  {
    if a == [] {
      assert a + b == b;
    } else {
      var y, a' := a[0], a[1..];
      assert a == [y] + a' && a + b == [y] + (a' + b);
      assert WithKey(a' + b, key, k) == WithKey(a', key, k) + WithKey(b, key, k) by {
        WithKeyAppend(a', b, key, k);
      }
      WithKeyConsBoth(y, a' + b, a', key, k, WithKey(b, key, k));
    }
  }

  lemma AppendAssoc<T>(a: seq<T>, b: seq<T>, c: seq<T>)
    ensures a + (b + c) == (a + b) + c
  {
  }

  lemma WithKeyCons<T, K>(y: T, rest: seq<T>, key: T -> K, k: K)
    ensures WithKey([y] + rest, key, k) == (if key(y) == k then [y] else []) + WithKey(rest, key, k)
  {
    assert ([y] + rest)[0] == y && ([y] + rest)[1..] == rest;
  }

  lemma {:induction false} WithKeyNone<T, K>(xs: seq<T>, key: T -> K, k: K)
    requires forall i :: 0 <= i < |xs| ==> key(xs[i]) != k
    ensures WithKey(xs, key, k) == []
  {
    if xs != [] {
      WithKeyNone(xs[1..], key, k);
    }
  }

  /** `less` compares elements only through their keys. */
  ghost predicate LessByKey<T(!new), K>(less: (T, T) -> bool, key: T -> K) {
    forall a, b, c :: key(a) == key(b) ==> less(a, c) == less(b, c)
  }

  /** Putting the same element in front of both sides keeps a difference of `own` at the end. */
  lemma WithKeyConsBoth<T, K>(y: T, a: seq<T>, b: seq<T>, key: T -> K, k: K, own: seq<T>)
    requires WithKey(a, key, k) == WithKey(b, key, k) + own
    ensures WithKey([y] + a, key, k) == WithKey([y] + b, key, k) + own
  {
    var h := if key(y) == k then [y] else [];
    WithKeyCons(y, a, key, k);
    WithKeyCons(y, b, key, k);
    AppendAssoc(h, WithKey(b, key, k), own);
  }

  /** Nothing in a sorted list shares its key with an element less than the list's first. */
  lemma NoneWithKeyAbove<T(!new), K>(x: T, ys: seq<T>, less: (T, T) -> bool, key: T -> K)
    requires (forall a :: !less(a, a)) && LessByKey(less, key) && SortedBy(ys, less)
    requires ys != [] && less(x, ys[0])
    ensures WithKey(ys, key, key(x)) == []
  {
    forall i | 0 <= i < |ys| ensures key(ys[i]) != key(x) {
      assert !less(ys[0], ys[0]);
      if i > 0 { assert !less(ys[i], ys[0]); }
    }
    WithKeyNone(ys, key, key(x));
  }

  /** A new front element is the last one with its key. */
  lemma InsertFrontWithKey<T(!new), K>(x: T, ys: seq<T>, less: (T, T) -> bool, key: T -> K, k: K)
    requires (forall a :: !less(a, a)) && LessByKey(less, key) && SortedBy(ys, less)
    requires ys != [] && less(x, ys[0])
    ensures WithKey(InsertBy(x, ys, less), key, k)
         == WithKey(ys, key, k) + (if key(x) == k then [x] else [])
  {
    assert InsertBy(x, ys, less) == [x] + ys;
    WithKeyCons(x, ys, key, k);
    if key(x) == k {
      NoneWithKeyAbove(x, ys, less, key);
      assert [x] + [] == [] + [x];
    } else {
      assert [] + WithKey(ys, key, k) == WithKey(ys, key, k) + [];
    }
  }

  /** Past the first element, the insertion happens in the rest of the list. */
  lemma {:induction false} InsertLaterWithKey<T(!new), K>(x: T, ys: seq<T>, less: (T, T) -> bool, key: T -> K, k: K)
    requires (forall a :: !less(a, a)) && LessByKey(less, key) && SortedBy(ys, less)
    requires ys != [] && !less(x, ys[0])
    ensures WithKey(InsertBy(x, ys, less), key, k)
         == WithKey(ys, key, k) + (if key(x) == k then [x] else [])
    decreases |ys|, 0
  {
    var own := if key(x) == k then [x] else [];
    var y, tail := ys[0], InsertBy(x, ys[1..], less);
    assert InsertBy(x, ys, less) == [y] + tail && ys == [y] + ys[1..];
    assert WithKey(tail, key, k) == WithKey(ys[1..], key, k) + own by {
      SortedByTail(ys, less);
      InsertByWithKey(x, ys[1..], less, key, k);
    }
    WithKeyConsBoth(y, tail, ys[1..], key, k, own);
  }

  /** Inserting into a sorted list puts the new element after every element with the same key. */
  lemma {:induction false} InsertByWithKey<T(!new), K>(x: T, ys: seq<T>, less: (T, T) -> bool, key: T -> K, k: K)
    requires (forall a :: !less(a, a)) && LessByKey(less, key) && SortedBy(ys, less)
    ensures WithKey(InsertBy(x, ys, less), key, k)
         == WithKey(ys, key, k) + (if key(x) == k then [x] else [])
    decreases |ys|, 1
  {
    if ys == [] {
      WithKeyCons(x, [], key, k);
      assert InsertBy(x, ys, less) == [x] + [];
    } else if less(x, ys[0]) {
      InsertFrontWithKey(x, ys, less, key, k);
    } else {
      InsertLaterWithKey(x, ys, less, key, k);
    }
  }

  /** Sorting by an order on keys is stable: elements that share a key come out in the order they went in. */
  lemma {:induction false} SortByStable<T(!new), K>(xs: seq<T>, less: (T, T) -> bool, key: T -> K, k: K)
    requires StrictOrder(less) && LessByKey(less, key)
    ensures WithKey(SortBy(xs, less), key, k) == WithKey(xs, key, k)
  {
    if xs != [] {
      var init, last := xs[..|xs| - 1], xs[|xs| - 1];
      var sorted := SortBy(init, less);
      var own := if key(last) == k then [last] else [];
      assert xs == init + [last];
      calc {
        WithKey(SortBy(xs, less), key, k);
        WithKey(InsertBy(last, sorted, less), key, k);
        { SortBySorted(init, less);
          InsertByWithKey(last, sorted, less, key, k); }
        WithKey(sorted, key, k) + own;
        { SortByStable(init, less, key, k); }
        WithKey(init, key, k) + own;
        { WithKeyCons(last, [], key, k);
          assert [last] + [] == [last]; }
        WithKey(init, key, k) + WithKey([last], key, k);
        { WithKeyAppend(init, [last], key, k); }
        WithKey(xs, key, k);
      }
    }
  }

  /**
   * `sorted` is stable: names that share a natural key (such as "a1.mp4"
   * and "A01.mp4") come out in the order they went in.
   */
  lemma SortNaturalStable(xs: seq<string>, k: seq<Chunk>)
    ensures WithKey(SortNatural(xs), NaturalKey, k) == WithKey(xs, NaturalKey, k)
  {
    NaturalLessStrictOrder();
    assert LessByKey(NaturalLess, NaturalKey);
    SortByStable(xs, NaturalLess, NaturalKey, k);
  }

  /** A digit run followed by nothing or by a non-digit is the first digit run. */
  lemma {:induction false} SplitNumberCons(number: string, rest: string)
    requires number != [] && AllDigits(number)
    requires rest == [] || !IsDigit(rest[0])
    ensures SplitDigitRuns(number + rest) == [[], number] + SplitDigitRuns(rest)
    decreases |number|
  {
    var s, d, n := number + rest, number[0], number[1..];
    var r := SplitDigitRuns(rest);
    assert IsDigit(d) && s[0] == d && s[1..] == n + rest;
    assert number == [d] + n;
    if n == [] {
      assert s[1..] == rest && number == [d];
      assert !(r[0] == [] && |r| > 1);
      assert SplitDigitRuns(s) == [[], [d]] + r;
    } else {
      assert SplitDigitRuns(s[1..]) == [[], n] + r by { SplitNumberCons(n, rest); }
      calc {
        SplitDigitRuns(s);
        [[], [d] + ([[], n] + r)[1]] + ([[], n] + r)[2..];
        { assert ([[], n] + r)[1] == n && ([[], n] + r)[2..] == r; }
        [[], number] + r;
      }
    }
  }

  /** A digit-free run followed by a digit run and a remainder that does not start with a digit. */
  lemma {:induction false} SplitDigitRunsCons(word: string, number: string, rest: string)
    requires NoDigits(word) && number != [] && AllDigits(number)
    requires rest == [] || !IsDigit(rest[0])
    ensures SplitDigitRuns(word + number + rest) == [word, number] + SplitDigitRuns(rest)
    decreases |word|
  {
    var s := word + number + rest;
    if word == [] {
      assert s == number + rest;
      SplitNumberCons(number, rest);
    } else {
      var w, r := word[1..], SplitDigitRuns(rest);
      assert !IsDigit(word[0]) && NoDigits(w);
      assert s[0] == word[0] && s[1..] == w + number + rest;
      assert SplitDigitRuns(s[1..]) == [w, number] + r by { SplitDigitRunsCons(w, number, rest); }
      calc {
        SplitDigitRuns(s);
        [[word[0]] + ([w, number] + r)[0]] + ([w, number] + r)[1..];
        { assert ([w, number] + r)[0] == w && ([w, number] + r)[1..] == [number] + r;
          assert [word[0]] + w == word; }
        [word, number] + r;
      }
    }
  }

  /** A name without digits is a single run. */
  lemma {:induction false} SplitDigitRunsOfText(w: string)
    requires NoDigits(w)
    ensures SplitDigitRuns(w) == [w]
    decreases |w|
  {
    if w != [] {
      assert !IsDigit(w[0]) && NoDigits(w[1..]);
      SplitDigitRunsOfText(w[1..]);
      assert [w[0]] + w[1..] == w;
    }
  }

  /** Text runs at even positions, non-empty digit runs at odd ones, and no empty text run inside. */
  ghost predicate DigitRunSplit(parts: seq<string>) {
    && |parts| % 2 == 1
    && (forall i :: 0 <= i < |parts| && i % 2 == 0 ==> NoDigits(parts[i]))
    && (forall i :: 0 <= i < |parts| && i % 2 == 1 ==> parts[i] != [] && AllDigits(parts[i]))
    && (forall i :: 0 < i < |parts| - 1 && i % 2 == 0 ==> parts[i] != [])
  }

  /** The split of a name is such a cut, and it joins back to the name. */
  lemma SplitDigitRunsIsDigitRunSplit(s: string)
    ensures DigitRunSplit(SplitDigitRuns(s)) && Concat(SplitDigitRuns(s)) == s
  {
    SplitDigitRunsText(s);
    SplitDigitRunsDigits(s);
    SplitDigitRunsMaximal(s);
    SplitDigitRunsConcat(s);
  }

  /**
   * `SplitDigitRuns` is the only way to cut a name into alternating text and
   * maximal digit runs: any such cut that joins back to the name is it.
   */
  lemma {:induction false} SplitDigitRunsUnique(s: string, parts: seq<string>)
    requires DigitRunSplit(parts) && Concat(parts) == s
    ensures parts == SplitDigitRuns(s)
    decreases |parts|
  {
    if |parts| == 1 {
      assert parts == [parts[0]] && parts[1..] == [];
      assert s == parts[0] + [] == parts[0];
      SplitDigitRunsOfText(parts[0]);
    } else {
      var w, n, tail := parts[0], parts[1], parts[2..];
      assert parts == [w, n] + tail;
      assert DigitRunSplit(tail) by {
        forall i | 0 <= i < |tail| ensures tail[i] == parts[i + 2] { }
      }
      var t := Concat(tail);
      ConcatCons(w, [n] + tail);
      ConcatCons(n, tail);
      assert ([w, n] + tail)[1..] == [n] + tail && ([n] + tail)[1..] == tail;
      assert s == w + n + t;
      assert t == [] || !IsDigit(t[0]) by {
        ConcatCons(tail[0], tail[1..]);
        assert tail == [tail[0]] + tail[1..];
        if tail[0] == [] {
          assert |tail| == 1 && tail[1..] == [];
        } else {
          assert t[0] == tail[0][0];
        }
      }
      SplitDigitRunsUnique(t, tail);
      SplitDigitRunsCons(w, n, t);
    }
  }

  lemma KeyPartsTwo(a: string, b: string, rest: seq<string>)
    ensures KeyParts([a, b] + rest) == [KeyPart(a), KeyPart(b)] + KeyParts(rest)
  {
    var parts := [a, b] + rest;
    assert parts[1..] == [b] + rest && parts[1..][1..] == rest;
  }

  /** The key of a digit-free run, a digit run and a remainder that does not start with a digit. */
  lemma NaturalKeyCons(word: string, number: string, rest: string)
    requires NoDigits(word) && number != [] && AllDigits(number)
    requires rest == [] || !IsDigit(rest[0])
    ensures NaturalKey(word + number + rest)
         == [Text(Lower(word)), Num(DigitsValue(number))] + NaturalKey(rest)
  {
    SplitDigitRunsCons(word, number, rest);
    KeyPartsTwo(word, number, SplitDigitRuns(rest));
    assert word == [] || !AllDigits(word) by {
      if word != [] { assert !IsDigit(word[0]); }
    }
  }

  /** A step only looks at the first runs, so later runs pass through. */
  lemma SplitStepAppend(c: char, parts: seq<string>, more: seq<string>)
    requires parts != []
    requires IsDigit(c) && parts[0] == [] ==> |parts| > 1
    ensures SplitStep(c, parts + more) == SplitStep(c, parts) + more
  {
    var all := parts + more;
    assert all[0] == parts[0] && all[1..] == parts[1..] + more;
    if |parts| > 1 {
      assert all[1] == parts[1] && all[2..] == parts[2..] + more;
    }
  }

  /** A name whose runs start with an empty text run starts with a digit, so it has more than one run. */
  lemma SplitDigitRunsLeadingNumber(q: string)
    requires q != [] && SplitDigitRuns(q)[0] == []
    ensures |SplitDigitRuns(q)| > 1
  {
    SplitDigitRunsConcat(q);
  }

  /** A name starting with a digit starts with an empty text run. */
  lemma SplitDigitRunsOfDigitFirst(u: string)
    requires u != [] && IsDigit(u[0])
    ensures SplitDigitRuns(u)[0] == [] && SplitDigitRuns(u) == [[]] + SplitDigitRuns(u)[1..]
  {
  }

  /**
   * Before a name that starts with a digit, a prefix that does not end in a
   * digit keeps its own runs: the two splits join at the empty text run.
   */
  lemma {:induction false} SplitDigitRunsBeforeDigit(p: string, u: string)
    requires p == [] || !IsDigit(p[|p| - 1])
    requires u != [] && IsDigit(u[0])
    ensures SplitDigitRuns(p + u) == SplitDigitRuns(p) + SplitDigitRuns(u)[1..]
    decreases |p|
  {
    var more := SplitDigitRuns(u)[1..];
    if p == [] {
      SplitDigitRunsOfDigitFirst(u);
      assert p + u == u;
    } else {
      var c, q, t := p[0], p[1..], p + u;
      assert t[0] == c && t[1..] == q + u;
      var sq := SplitDigitRuns(q);
      assert SplitDigitRuns(t[1..]) == sq + more by {
        if q == [] {
          SplitDigitRunsOfDigitFirst(u);
          assert q + u == u;
        } else {
          assert q[|q| - 1] == p[|p| - 1];
          SplitDigitRunsBeforeDigit(q, u);
        }
      }
      assert IsDigit(c) && sq[0] == [] ==> |sq| > 1 by {
        if q != [] && sq[0] == [] { SplitDigitRunsLeadingNumber(q); }
      }
      calc {
        SplitDigitRuns(t);
        SplitStep(c, sq + more);
        { SplitStepAppend(c, sq, more); }
        SplitStep(c, sq) + more;
        SplitDigitRuns(p) + more;
      }
    }
  }

  lemma {:induction false} KeyPartsAppend(a: seq<string>, b: seq<string>)
    ensures KeyParts(a + b) == KeyParts(a) + KeyParts(b)
  {
    if a == [] {
      assert a + b == b;
    } else {
      assert (a + b)[0] == a[0] && (a + b)[1..] == a[1..] + b;
      KeyPartsAppend(a[1..], b);
    }
  }

  /** Keys with a common prefix compare as their remainders do. */
  lemma {:induction false} KeyLessCommonPrefix(c: seq<Chunk>, a: seq<Chunk>, b: seq<Chunk>)
    ensures KeyLess(c + a, c + b) <==> KeyLess(a, b)
  {
    if c == [] {
      assert c + a == a && c + b == b;
    } else {
      ChunkLessIrreflexive(c[0]);
      assert (c + a)[0] == c[0] == (c + b)[0];
      assert (c + a)[1..] == c[1..] + a && (c + b)[1..] == c[1..] + b;
      KeyLessCommonPrefix(c[1..], a, b);
    }
  }

  /** Before a name that starts with a digit, a prefix that does not end in a digit keeps its own key. */
  lemma NaturalKeyBeforeDigit(p: string, u: string)
    requires p == [] || !IsDigit(p[|p| - 1])
    requires u != [] && IsDigit(u[0])
    ensures NaturalKey(p + u) == NaturalKey(p) + NaturalKey(u)[1..]
  {
    var sp, su := SplitDigitRuns(p), SplitDigitRuns(u);
    SplitDigitRunsBeforeDigit(p, u);
    KeyPartsAppend(sp, su[1..]);
    assert su == [su[0]] + su[1..];
  }

  /** After everything but its first run, a name that starts with a number has the number's value, then the remainder's key. */
  lemma NaturalKeyOfNumberFirst(number: string, rest: string)
    requires number != [] && AllDigits(number)
    requires rest == [] || !IsDigit(rest[0])
    ensures NaturalKey(number + rest)[1..] == [Num(DigitsValue(number))] + NaturalKey(rest)
  {
    var sr, x := SplitDigitRuns(rest), Num(DigitsValue(number));
    SplitNumberCons(number, rest);
    KeyPartsTwo([], number, sr);
    assert KeyPart(number) == x;
    var key := [KeyPart([]), x] + KeyParts(sr);
    assert key[1..] == [x] + KeyParts(sr);
  }

  /** The key of a whole digit run after a prefix that does not end in a digit. */
  lemma NaturalKeyAfterText(p: string, number: string, rest: string)
    requires p == [] || !IsDigit(p[|p| - 1])
    requires number != [] && AllDigits(number)
    requires rest == [] || !IsDigit(rest[0])
    ensures NaturalKey(p + number + rest) == NaturalKey(p) + ([Num(DigitsValue(number))] + NaturalKey(rest))
  {
    var u := number + rest;
    assert p + number + rest == p + u && u[0] == number[0];
    NaturalKeyBeforeDigit(p, u);
    NaturalKeyOfNumberFirst(number, rest);
  }

  /**
   * Names that differ only in one number are ordered by the value of that
   * number, not by its text: "clip2.mp4" comes before "clip10.mp4", and
   * "s1e9" before "s1e10". The number must be a whole digit run: what comes
   * before it does not end in a digit, what follows does not start with one.
   */
  lemma NumbersCompareAsIntegers(p: string, n1: string, n2: string, rest: string)
    requires p == [] || !IsDigit(p[|p| - 1])
    requires n1 != [] && AllDigits(n1) && n2 != [] && AllDigits(n2)
    requires rest == [] || !IsDigit(rest[0])
    ensures NaturalLess(p + n1 + rest, p + n2 + rest) <==> DigitsValue(n1) < DigitsValue(n2)
  {
    var kp, kr := NaturalKey(p), NaturalKey(rest);
    var k1, k2 := [Num(DigitsValue(n1))] + kr, [Num(DigitsValue(n2))] + kr;
    NaturalKeyAfterText(p, n1, rest);
    NaturalKeyAfterText(p, n2, rest);
    KeyLessCommonPrefix(kp, k1, k2);
    KeyLessIrreflexive(kr);
    assert k1[1..] == kr && k2[1..] == kr;
  }

  function LowerAll(parts: seq<string>): (r: seq<string>)
    ensures |r| == |parts|
  {
    if parts == [] then [] else [Lower(parts[0])] + LowerAll(parts[1..])
  }

  lemma LowerAllCons(p: string, ps: seq<string>)
    ensures LowerAll([p] + ps) == [Lower(p)] + LowerAll(ps)
  {
    assert ([p] + ps)[1..] == ps;
  }

  lemma LowerCons(c: char, t: string)
    ensures Lower([c] + t) == [LowerChar(c)] + Lower(t)
  {
  }

  lemma LowerAllText(c: char, a: string, t: seq<string>)
    ensures LowerAll([[c] + a] + t) == [[LowerChar(c)] + Lower(a)] + LowerAll(t)
  {
    LowerCons(c, a);
    LowerAllCons([c] + a, t);
  }

  lemma LowerAllMerge(c: char, b: string, t: seq<string>)
    ensures LowerAll([[], [c] + b] + t) == [[], [LowerChar(c)] + Lower(b)] + LowerAll(t)
  {
    assert [[], [c] + b] + t == [[]] + ([[c] + b] + t);
    LowerAllCons([], [[c] + b] + t);
    LowerAllText(c, b, t);
  }

  lemma LowerAllNew(c: char, t: seq<string>)
    ensures LowerAll([[], [c]] + t) == [[], [LowerChar(c)]] + LowerAll(t)
  {
    var w: string := [c];
    assert w + [] == w;
    assert [[], w] + t == [[]] + ([w + []] + t);
    LowerAllCons([], [w + []] + t);
    LowerAllText(c, [], t);
    assert Lower([]) == [];
    assert [LowerChar(c)] + Lower([]) == [LowerChar(c)];
  }

  /** Lowercasing the name lowercases each run and moves no boundary between runs. */
  lemma {:induction false} SplitDigitRunsLower(s: string)
    ensures SplitDigitRuns(Lower(s)) == LowerAll(SplitDigitRuns(s))
    decreases |s|
  {
    if s != [] {
      var c, low := s[0], Lower(s);
      var rest := SplitDigitRuns(s[1..]);
      var lrest := LowerAll(rest);
      assert low[0] == LowerChar(c) && low[1..] == Lower(s[1..]);
      assert SplitDigitRuns(low[1..]) == lrest by { SplitDigitRunsLower(s[1..]); }
      assert lrest[0] == Lower(rest[0]) && lrest[1..] == LowerAll(rest[1..]) by {
        assert rest == [rest[0]] + rest[1..];
        LowerAllCons(rest[0], rest[1..]);
      }
      if !IsDigit(c) {
        LowerAllText(c, rest[0], rest[1..]);
      } else if rest[0] == [] && |rest| > 1 {
        assert lrest[1] == Lower(rest[1]) && lrest[2..] == LowerAll(rest[2..]) by {
          assert rest[1..] == [rest[1]] + rest[2..];
          LowerAllCons(rest[1], rest[2..]);
        }
        LowerAllMerge(c, rest[1], rest[2..]);
      } else {
        LowerAllNew(c, rest);
      }
    }
  }

  /** Lowercasing a run does not change its key element. */
  lemma KeyPartLower(t: string)
    ensures KeyPart(Lower(t)) == KeyPart(t)
  {
    LowerSpec(t);
    if t != [] && AllDigits(t) {
      assert Lower(t) == t;
    } else if t != [] {
      var j :| 0 <= j < |t| && !IsDigit(t[j]);
      assert !IsDigit(Lower(t)[j]);
    }
  }

  lemma {:induction false} KeyPartsLower(parts: seq<string>)
    ensures KeyParts(LowerAll(parts)) == KeyParts(parts)
  {
    if parts != [] {
      KeyPartLower(parts[0]);
      KeyPartsLower(parts[1..]);
      assert LowerAll(parts)[1..] == LowerAll(parts[1..]);
    }
  }

  /** `natural_key` ignores letter case: a name and its lowercase form have the same key. */
  lemma NaturalKeyIgnoresCase(s: string)
    ensures NaturalKey(Lower(s)) == NaturalKey(s)
  {
    SplitDigitRunsLower(s);
    KeyPartsLower(SplitDigitRuns(s));
  }

  /** Comparing two names is the same as comparing their lowercase forms. */
  lemma NaturalLessIgnoresCase(a: string, b: string)
    ensures NaturalLess(Lower(a), Lower(b)) <==> NaturalLess(a, b)
  {
    NaturalKeyIgnoresCase(a);
    NaturalKeyIgnoresCase(b);
  }
}
