/** The corpus the suffix generator keeps in its three containers, and how
    building the generator fills them.

    `sentences` holds each sentence's tikis at its index, `count` is the
    size field of that container, `unigrams[x]` lists the references to the
    positions that follow the tiki `x`, and `bigrams[x][y]` those that
    follow the pair `x y`. The lists are the values appended to the nested
    containers, in append order. */
module SuffixIndex {
  import opened Store

  /** The sentinel tiki: the predecessor of a sentence's first tiki, and the
      position recorded for "the sentence ends here". */
  const INTERIM: int := -1

  /** Sentences are written in transactions of this many. */
  const BATCH: int := 1000

  /** A reference to position `pos` of sentence `sentence`. */
  datatype Ref = Ref(sentence: int, pos: int)

  datatype Corpus = Corpus(
    sentences: map<int, seq<int>>,
    count: int,
    unigrams: map<int, seq<Ref>>,
    bigrams: map<int, map<int, seq<Ref>>>)

  function Refs(m: map<int, seq<Ref>>, x: int): seq<Ref>
  {
    if x in m then m[x] else []
  }

  function BiRefs(m: map<int, map<int, seq<Ref>>>, x: int, y: int): seq<Ref>
  {
    if x in m && y in m[x] then m[x][y] else []
  }

  /** The tiki before position `j`, the sentinel before the first. */
  function Before(t: seq<int>, j: int): int
    requires 0 <= j <= |t|
  {
    if j == 0 then INTERIM else t[j - 1]
  }

  // ---------------------------------------------------------------------
  // what indexing one sentence appends

  /** The unigram appends of the indexing loop at position `j` of sentence
      `i`: the position under its predecessor, and at the last position the
      end marker under the last tiki. */
  function UniAt(i: int, t: seq<int>, j: int): seq<(int, Ref)>
    requires 0 <= j < |t|
  {
    [(Before(t, j), Ref(i, j))] + (if j == |t| - 1 then [(t[j], Ref(i, INTERIM))] else [])
  }

  function UniFrom(i: int, t: seq<int>, j: int): (r: seq<(int, Ref)>)
    requires 0 <= j <= |t|
    decreases |t| - j
  {
    if j == |t| then [] else UniAt(i, t, j) + UniFrom(i, t, j + 1)
  }

  /** The bigram append at position `j`: under the predecessor and the tiki,
      the next position, or the end marker at the last position. */
  function BiAt(i: int, t: seq<int>, j: int): (int, int, Ref)
    requires 0 <= j < |t|
  {
    (Before(t, j), t[j], Ref(i, if j == |t| - 1 then INTERIM else j + 1))
  }

  function BiFrom(i: int, t: seq<int>, j: int): (r: seq<(int, int, Ref)>)
    requires 0 <= j <= |t|
    decreases |t| - j
  {
    if j == |t| then [] else [BiAt(i, t, j)] + BiFrom(i, t, j + 1)
  }

  /** Indexing a sentence of `n` tikis appends `n + 1` unigram references and
      `n` bigram references. */
  lemma {:induction false} IndexCounts(i: int, t: seq<int>, j: int)
    requires 0 <= j < |t|
    ensures |UniFrom(i, t, j)| == |t| - j + 1
    ensures |BiFrom(i, t, j)| == |t| - j
    decreases |t| - j
  {
    if j + 1 < |t| {
      IndexCounts(i, t, j + 1);
    }
  }

  /** A unigram reference to `p` in sentence `t`, filed under `x`, is
      right: `x` is the tiki before `p`, or for the end marker the last
      tiki. */
  predicate UniRefOk(t: seq<int>, x: int, p: int)
  {
    if p == INTERIM then |t| > 0 && t[|t| - 1] == x
    else 0 <= p < |t| && Before(t, p) == x
  }

  /** A bigram reference to `p` in sentence `t`, filed under `x y`, is
      right: `x y` are the two tikis before `p`, or for the end marker the
      last tiki and its predecessor. */
  predicate BiRefOk(t: seq<int>, x: int, y: int, p: int)
  {
    if p == INTERIM then |t| > 0 && t[|t| - 1] == y && Before(t, |t| - 1) == x
    else 1 <= p < |t| && t[p - 1] == y && Before(t, p - 1) == x
  }

  function RefsFor(ps: seq<(int, Ref)>, x: int): seq<Ref>
  {
    if ps == [] then []
    else (if ps[0].0 == x then [ps[0].1] else []) + RefsFor(ps[1..], x)
  }

  function BiRefsFor(ps: seq<(int, int, Ref)>, x: int, y: int): seq<Ref>
  {
    if ps == [] then []
    else (if ps[0].0 == x && ps[0].1 == y then [ps[0].2] else []) + BiRefsFor(ps[1..], x, y)
  }

  lemma {:induction false} RefsForAppend(a: seq<(int, Ref)>, b: seq<(int, Ref)>, x: int)
    ensures RefsFor(a + b, x) == RefsFor(a, x) + RefsFor(b, x)
    decreases |a|
  {
    if a == [] {
      assert a + b == b;
    } else {
      var h := if a[0].0 == x then [a[0].1] else [];
      assert (a + b)[0] == a[0] && (a + b)[1..] == a[1..] + b;
      assert RefsFor(a + b, x) == h + RefsFor(a[1..] + b, x);
      RefsForAppend(a[1..], b, x);
      assert RefsFor(a, x) == h + RefsFor(a[1..], x);
    }
  }

  /** Exactly the right references of sentence `i` are filed under `x`: the
      positions from `j` on whose predecessor is `x`, and the end marker
      when the last tiki is `x`. */
  lemma {:induction false} UniFromFiles(i: int, t: seq<int>, j: int, x: int, r: Ref)
    requires 0 <= j <= |t|
    ensures r in RefsFor(UniFrom(i, t, j), x) <==>
              r.sentence == i && UniRefOk(t, x, r.pos) && (if r.pos == INTERIM then j < |t| else r.pos >= j)
    decreases |t| - j
  {
    if j < |t| {
      UniFromFiles(i, t, j + 1, x, r);
      RefsForAppend(UniAt(i, t, j), UniFrom(i, t, j + 1), x);
      var a := UniAt(i, t, j);
      if j == |t| - 1 {
        assert a == [(Before(t, j), Ref(i, j))] + [(t[j], Ref(i, INTERIM))];
        assert a[1..] == [(t[j], Ref(i, INTERIM))];
        assert RefsFor(a, x) == (if Before(t, j) == x then [Ref(i, j)] else [])
                               + (if t[j] == x then [Ref(i, INTERIM)] else []);
      } else {
        assert RefsFor(a, x) == (if Before(t, j) == x then [Ref(i, j)] else []);
      }
    }
  }

  lemma {:induction false} BiFromFiles(i: int, t: seq<int>, j: int, x: int, y: int, r: Ref)
    requires 0 <= j <= |t|
    ensures r in BiRefsFor(BiFrom(i, t, j), x, y) <==>
              r.sentence == i && BiRefOk(t, x, y, r.pos) && (if r.pos == INTERIM then j < |t| else r.pos > j)
    decreases |t| - j
  {
    if j < |t| {
      BiFromFiles(i, t, j + 1, x, y, r);
      var b := BiAt(i, t, j);
      var ps := BiFrom(i, t, j);
      assert ps[0] == b && ps[1..] == BiFrom(i, t, j + 1);
      var head := if b.0 == x && b.1 == y then [b.2] else [];
      assert BiRefsFor(ps, x, y) == head + BiRefsFor(BiFrom(i, t, j + 1), x, y);
      if r == b.2 {
        assert r.pos == INTERIM ==> j == |t| - 1;
        assert r.pos != INTERIM ==> r.pos == j + 1;
      }
    }
  }

  // ---------------------------------------------------------------------
  // appending references to the index maps

  function AddAll(m: map<int, seq<Ref>>, ps: seq<(int, Ref)>): map<int, seq<Ref>>
    decreases |ps|
  {
    if ps == [] then m
    else AddAll(m[ps[0].0 := Refs(m, ps[0].0) + [ps[0].1]], ps[1..])
  }

  function AddBi(m: map<int, map<int, seq<Ref>>>, x: int, y: int, r: Ref): map<int, map<int, seq<Ref>>>
  {
    m[x := (if x in m then m[x] else map[])[y := BiRefs(m, x, y) + [r]]]
  }

  function AddAllBi(m: map<int, map<int, seq<Ref>>>, ps: seq<(int, int, Ref)>): map<int, map<int, seq<Ref>>>
    decreases |ps|
  {
    if ps == [] then m
    else AddAllBi(AddBi(m, ps[0].0, ps[0].1, ps[0].2), ps[1..])
  }

  lemma {:induction false} AddAllConcat(m: map<int, seq<Ref>>, a: seq<(int, Ref)>, b: seq<(int, Ref)>)
    ensures AddAll(m, a + b) == AddAll(AddAll(m, a), b)
    decreases |a|
  {
    if a == [] {
      assert a + b == b;
    } else {
      assert (a + b)[1..] == a[1..] + b;
      AddAllConcat(m[a[0].0 := Refs(m, a[0].0) + [a[0].1]], a[1..], b);
    }
  }

  lemma {:induction false} AddAllBiConcat(m: map<int, map<int, seq<Ref>>>, a: seq<(int, int, Ref)>, b: seq<(int, int, Ref)>)
    ensures AddAllBi(m, a + b) == AddAllBi(AddAllBi(m, a), b)
    decreases |a|
  {
    if a == [] {
      assert a + b == b;
    } else {
      assert (a + b)[1..] == a[1..] + b;
      AddAllBiConcat(AddBi(m, a[0].0, a[0].1, a[0].2), a[1..], b);
    }
  }

  /** Appending references extends each list by the references filed under
      its key, in order, and touches no other list. */
  lemma {:induction false} AddAllRefs(m: map<int, seq<Ref>>, ps: seq<(int, Ref)>, x: int)
    ensures Refs(AddAll(m, ps), x) == Refs(m, x) + RefsFor(ps, x)
    decreases |ps|
  {
    if ps != [] {
      AddAllRefs(m[ps[0].0 := Refs(m, ps[0].0) + [ps[0].1]], ps[1..], x);
    }
  }

  lemma {:induction false} AddAllBiRefs(m: map<int, map<int, seq<Ref>>>, ps: seq<(int, int, Ref)>, x: int, y: int)
    ensures BiRefs(AddAllBi(m, ps), x, y) == BiRefs(m, x, y) + BiRefsFor(ps, x, y)
    decreases |ps|
  {
    if ps != [] {
      AddAllBiRefs(AddBi(m, ps[0].0, ps[0].1, ps[0].2), ps[1..], x, y);
    }
  }

  // ---------------------------------------------------------------------
  // building

  /** `sentences.reject { |s| s.length < 2 }`. */
  function DropShort(input: seq<seq<int>>): (u: seq<seq<int>>)
    ensures forall s :: s in u <==> s in input && |s| >= 2
    ensures |u| <= |input|
  {
    if input == [] then []
    else (if |input[0]| < 2 then [] else [input[0]]) + DropShort(input[1..])
  }

  /** `@sentences[i] = t` and the indexing loop: the sentence is stored,
      the size field grows to cover `i`, and its references are appended. */
  function Insert(c: Corpus, i: int, t: seq<int>): Corpus
  {
    Corpus(c.sentences[i := t],
           if i > c.count - 1 then i + 1 else c.count,
           AddAll(c.unigrams, UniFrom(i, t, 0)),
           AddAllBi(c.bigrams, BiFrom(i, t, 0)))
  }

  /** One turn of the inner loop at index `i`: an absent sentence is
      inserted, an equal one is left alone, a different one is corrupt. */
  function Ingest(c: Corpus, u: seq<seq<int>>, i: int): Outcome<Corpus>
    requires 0 <= i < |u|
  {
    if i !in c.sentences then Ok(Insert(c, i, u[i]))
    else if c.sentences[i] == u[i] then Ok(c)
    else Raise(DataCorrupt)
  }

  /** The inner loop `while (i < s && i < sentences.size)`. */
  function IngestRange(c: Corpus, u: seq<seq<int>>, i: int, hi: int): Outcome<Corpus>
    requires 0 <= i
    decreases hi - i
  {
    if i >= hi || i >= |u| then Ok(c)
    else
      match Ingest(c, u, i)
      case Raise(f) => Raise(f)
      case Ok(c1) => IngestRange(c1, u, i + 1, hi)
  }

  /** The state the build leaves, and whether it raised. */
  datatype Built = Built(state: Corpus, out: Outcome<()>)

  /** The outer loop: one transaction per batch. A batch that raises is
      rolled back, so the state is the one its transaction started from. */
  function IngestBatches(c: Corpus, u: seq<seq<int>>, ii: int): Built
    requires 0 <= ii
    decreases |u| - ii
  {
    if ii >= |u| then Built(c, Ok(()))
    else
      match IngestRange(c, u, ii, ii + BATCH)
      case Raise(f) => Built(c, Raise(f))
      case Ok(c1) => IngestBatches(c1, u, if ii + BATCH < |u| then ii + BATCH else |u|)
  }

  /** The corpus after the top-level `clear` of all three containers:
      every record is gone, but the sentence container's size field keeps
      its old value. */
  function Cleared(c: Corpus): Corpus
  {
    c.(sentences := map[], unigrams := map[], bigrams := map[])
  }

  /** Building the generator over a stored corpus. */
  function BuildSpec(c: Corpus, input: seq<seq<int>>): Built
  {
    var u := DropShort(input);
    var c1 := if c.count > |u| then Cleared(c) else c;
    if c1.count < |u| then IngestBatches(c1, u, 0) else Built(c1, Ok(()))
  }

  // ---------------------------------------------------------------------
  // properties of the build

  /** Every reference in the index points at a stored sentence, and at a
      position that follows the tikis it is filed under. */
  ghost predicate Sound(c: Corpus)
  {
    && (forall x, r :: x in c.unigrams && r in c.unigrams[x] ==>
          r.sentence in c.sentences && UniRefOk(c.sentences[r.sentence], x, r.pos))
    && (forall x, y, r :: x in c.bigrams && y in c.bigrams[x] && r in c.bigrams[x][y] ==>
          r.sentence in c.sentences && BiRefOk(c.sentences[r.sentence], x, y, r.pos))
  }

  /** Inserting an absent sentence keeps the index sound. */
  lemma InsertKeepsSound(c: Corpus, i: int, t: seq<int>)
    requires Sound(c) && i !in c.sentences
    ensures Sound(Insert(c, i, t))
  {
    var d := Insert(c, i, t);
    forall x, r | x in d.unigrams && r in d.unigrams[x]
      ensures r.sentence in d.sentences && UniRefOk(d.sentences[r.sentence], x, r.pos)
    {
      AddAllRefs(c.unigrams, UniFrom(i, t, 0), x);
      UniFromFiles(i, t, 0, x, r);
      assert r in Refs(d.unigrams, x);
      if r in Refs(c.unigrams, x) {
        assert r.sentence in c.sentences;
      }
    }
    forall x, y, r | x in d.bigrams && y in d.bigrams[x] && r in d.bigrams[x][y]
      ensures r.sentence in d.sentences && BiRefOk(d.sentences[r.sentence], x, y, r.pos)
    {
      AddAllBiRefs(c.bigrams, BiFrom(i, t, 0), x, y);
      BiFromFiles(i, t, 0, x, y, r);
      assert r in BiRefs(d.bigrams, x, y);
      if r in BiRefs(c.bigrams, x, y) {
        assert r.sentence in c.sentences;
      }
    }
  }

  /** Every position of sentence `t`, stored at `i`, is filed under the
      tikis before it, and so is its end marker: the converse of the
      reference checks in `Sound`. */
  ghost predicate Filed(c: Corpus, i: int, t: seq<int>)
  {
    && (forall x, p :: UniRefOk(t, x, p) ==> Ref(i, p) in Refs(c.unigrams, x))
    && (forall x, y, p :: BiRefOk(t, x, y, p) ==> Ref(i, p) in BiRefs(c.bigrams, x, y))
  }

  /** Every stored sentence has all its references filed. */
  ghost predicate Complete(c: Corpus)
  {
    forall i :: i in c.sentences ==> Filed(c, i, c.sentences[i])
  }

  /** Inserting an absent sentence files all of its references and keeps
      those of the sentences already stored. */
  lemma InsertKeepsComplete(c: Corpus, i: int, t: seq<int>)
    requires Complete(c) && i !in c.sentences
    ensures Complete(Insert(c, i, t))
  {
    var d := Insert(c, i, t);
    forall k | k in d.sentences ensures Filed(d, k, d.sentences[k]) {
      var tk := d.sentences[k];
      forall x, p | UniRefOk(tk, x, p) ensures Ref(k, p) in Refs(d.unigrams, x) {
        AddAllRefs(c.unigrams, UniFrom(i, t, 0), x);
        if k == i {
          UniFromFiles(i, t, 0, x, Ref(i, p));
        } else {
          assert Filed(c, k, c.sentences[k]);
        }
      }
      forall x, y, p | BiRefOk(tk, x, y, p) ensures Ref(k, p) in BiRefs(d.bigrams, x, y) {
        AddAllBiRefs(c.bigrams, BiFrom(i, t, 0), x, y);
        if k == i {
          BiFromFiles(i, t, 0, x, y, Ref(i, p));
        } else {
          assert Filed(c, k, c.sentences[k]);
        }
      }
    }
  }

  /** Over a sound and complete index, a sentence's reference is filed
      under a tiki, or a pair of tikis, exactly when those are the tikis
      before its position: the index offers every continuation the stored
      sentences have, and no other. */
  lemma IndexExact(c: Corpus, i: int, x: int, y: int, p: int)
    requires Sound(c) && Complete(c) && i in c.sentences
    ensures Ref(i, p) in Refs(c.unigrams, x) <==> UniRefOk(c.sentences[i], x, p)
    ensures Ref(i, p) in BiRefs(c.bigrams, x, y) <==> BiRefOk(c.sentences[i], x, y, p)
  {
    assert Filed(c, i, c.sentences[i]);
  }

  /** A sentence index is mismatched when a sentence is stored there that
      differs from the input's. */
  ghost predicate Mismatch(c: Corpus, u: seq<seq<int>>, i: int)
  {
    0 <= i < |u| && i in c.sentences && c.sentences[i] != u[i]
  }

  /** A turn changes the stored sentences at its own index only. */
  lemma IngestFrame(c: Corpus, u: seq<seq<int>>, i: int)
    requires 0 <= i < |u|
    ensures var g := Ingest(c, u, i);
      && (g.Raise? <==> Mismatch(c, u, i))
      && (g.Raise? ==> g.fault == DataCorrupt)
      && (g.Ok? ==> g.value.sentences == c.sentences[i := u[i]])
  {
  }

  lemma {:induction false} IngestRangeRaises(c: Corpus, u: seq<seq<int>>, i: int, hi: int)
    requires 0 <= i
    ensures var r := IngestRange(c, u, i, hi);
      && (r.Raise? <==> exists j :: i <= j < hi && Mismatch(c, u, j))
      && (r.Raise? ==> r.fault == DataCorrupt)
    decreases hi - i
  {
    if i < hi && i < |u| {
      IngestFrame(c, u, i);
      var g := Ingest(c, u, i);
      if g.Ok? {
        IngestRangeRaises(g.value, u, i + 1, hi);
        assert forall j :: j != i ==> (Mismatch(g.value, u, j) <==> Mismatch(c, u, j));
      }
    } else {
      assert forall j :: i <= j < hi ==> !Mismatch(c, u, j);
    }
  }

  lemma {:induction false} IngestRangeStores(c: Corpus, u: seq<seq<int>>, i: int, hi: int)
    requires 0 <= i && Sound(c)
    ensures var r := IngestRange(c, u, i, hi);
      && (r.Ok? ==> Sound(r.value))
      && (r.Ok? ==> forall j :: i <= j < hi && j < |u| ==> j in r.value.sentences && r.value.sentences[j] == u[j])
      && (r.Ok? ==> forall j :: (j < i || j >= hi || j >= |u|) ==>
                      (j in r.value.sentences <==> j in c.sentences)
                      && (j in c.sentences ==> r.value.sentences[j] == c.sentences[j]))
    decreases hi - i
  {
    if i < hi && i < |u| {
      IngestFrame(c, u, i);
      var g := Ingest(c, u, i);
      if g.Ok? {
        if i !in c.sentences { InsertKeepsSound(c, i, u[i]); }
        IngestRangeStores(g.value, u, i + 1, hi);
      }
    }
  }

  lemma {:induction false} IngestBatchesSpec(c: Corpus, u: seq<seq<int>>, ii: int)
    requires 0 <= ii && Sound(c)
    ensures var b := IngestBatches(c, u, ii);
      && (b.out.Raise? <==> exists j :: ii <= j && Mismatch(c, u, j))
      && (b.out.Raise? ==> b.out.fault == DataCorrupt)
      && Sound(b.state)
      && (b.out.Ok? ==> forall j :: ii <= j < |u| ==> j in b.state.sentences && b.state.sentences[j] == u[j])
      && (b.out.Ok? ==> forall j :: j < ii ==>
                         (j in b.state.sentences <==> j in c.sentences)
                         && (j in c.sentences ==> b.state.sentences[j] == c.sentences[j]))
    decreases |u| - ii
  {
    if ii < |u| {
      IngestRangeRaises(c, u, ii, ii + BATCH);
      IngestRangeStores(c, u, ii, ii + BATCH);
      var r := IngestRange(c, u, ii, ii + BATCH);
      if r.Ok? {
        var next := if ii + BATCH < |u| then ii + BATCH else |u|;
        IngestBatchesSpec(r.value, u, next);
        assert forall j :: next <= j ==> (Mismatch(r.value, u, j) <==> Mismatch(c, u, j));
        assert forall j :: ii <= j < next ==> !Mismatch(c, u, j);
      }
    } else {
      assert forall j :: ii <= j ==> !Mismatch(c, u, j);
    }
  }

  /** Building raises "Data bad/corrput?" exactly when it rebuilds and some
      stored sentence differs from its input; otherwise every input
      sentence is then stored at its index. Either way the index stays
      sound. */
  lemma BuildChecksStored(c: Corpus, input: seq<seq<int>>)
    requires Sound(c)
    ensures var u := DropShort(input);
      var c1 := if c.count > |u| then Cleared(c) else c;
      var b := BuildSpec(c, input);
      && Sound(b.state)
      && (b.out.Raise? <==> c1.count < |u| && exists j :: Mismatch(c1, u, j))
      && (b.out.Raise? ==> b.out.fault == DataCorrupt)
      && (b.out.Ok? && c1.count < |u| ==> forall j :: 0 <= j < |u| ==> j in b.state.sentences && b.state.sentences[j] == u[j])
  {
    var u := DropShort(input);
    var c1 := if c.count > |u| then Cleared(c) else c;
    assert Sound(c1);
    if c1.count < |u| {
      IngestBatchesSpec(c1, u, 0);
      assert forall j :: Mismatch(c1, u, j) ==> 0 <= j;
    }
  }

  lemma {:induction false} IngestRangeKeepsComplete(c: Corpus, u: seq<seq<int>>, i: int, hi: int)
    requires 0 <= i && Complete(c)
    ensures var r := IngestRange(c, u, i, hi); r.Ok? ==> Complete(r.value)
    decreases hi - i
  {
    if i < hi && i < |u| {
      var g := Ingest(c, u, i);
      if g.Ok? {
        if i !in c.sentences { InsertKeepsComplete(c, i, u[i]); }
        IngestRangeKeepsComplete(g.value, u, i + 1, hi);
      }
    }
  }

  lemma {:induction false} IngestBatchesKeepComplete(c: Corpus, u: seq<seq<int>>, ii: int)
    requires 0 <= ii && Complete(c)
    ensures Complete(IngestBatches(c, u, ii).state)
    decreases |u| - ii
  {
    if ii < |u| {
      IngestRangeKeepsComplete(c, u, ii, ii + BATCH);
      var r := IngestRange(c, u, ii, ii + BATCH);
      if r.Ok? {
        IngestBatchesKeepComplete(r.value, u, if ii + BATCH < |u| then ii + BATCH else |u|);
      }
    }
  }

  /** Building keeps every stored sentence fully indexed, whether it
      rebuilds, leaves the store alone, or rolls a failed batch back. */
  lemma BuildKeepsComplete(c: Corpus, input: seq<seq<int>>)
    requires Complete(c)
    ensures Complete(BuildSpec(c, input).state)
  {
    var u := DropShort(input);
    var c1 := if c.count > |u| then Cleared(c) else c;
    assert Complete(c1);
    if c1.count < |u| {
      IngestBatchesKeepComplete(c1, u, 0);
    }
  }

  /** Ingesting sentences that are all stored already changes nothing. */
  lemma {:induction false} IngestStoredIsIdle(c: Corpus, u: seq<seq<int>>, i: int, hi: int)
    requires 0 <= i
    requires forall j :: 0 <= j < |u| ==> j in c.sentences && c.sentences[j] == u[j]
    ensures IngestRange(c, u, i, hi) == Ok(c)
    decreases hi - i
  {
    if i < hi && i < |u| {
      IngestStoredIsIdle(c, u, i + 1, hi);
    }
  }

  lemma {:induction false} IngestBatchesStoredIsIdle(c: Corpus, u: seq<seq<int>>, ii: int)
    requires 0 <= ii
    requires forall j :: 0 <= j < |u| ==> j in c.sentences && c.sentences[j] == u[j]
    ensures IngestBatches(c, u, ii) == Built(c, Ok(()))
    decreases |u| - ii
  {
    if ii < |u| {
      IngestStoredIsIdle(c, u, ii, ii + BATCH);
      IngestBatchesStoredIsIdle(c, u, if ii + BATCH < |u| then ii + BATCH else |u|);
    }
  }

  /** Rebuilding over a store that already holds the input leaves the
      indexes untouched: nothing is appended twice. */
  lemma BuildOverStoredIsIdle(c: Corpus, input: seq<seq<int>>)
    requires c.count <= |DropShort(input)|
    requires forall j :: 0 <= j < |DropShort(input)| ==>
               j in c.sentences && c.sentences[j] == DropShort(input)[j]
    ensures BuildSpec(c, input) == Built(c, Ok(()))
  {
    IngestBatchesStoredIsIdle(c, DropShort(input), 0);
  }

  /** A stored corpus with more sentences than the input is cleared, and
      as the top-level clear keeps the size field, the count still exceeds
      the input's and nothing is rebuilt: the generator is left with no
      sentences and no references. */
  lemma ShrinkLeavesEmpty(c: Corpus, input: seq<seq<int>>)
    requires c.count > |DropShort(input)|
    ensures BuildSpec(c, input) == Built(Cleared(c), Ok(()))
    ensures BuildSpec(c, input).state.count == c.count
    ensures BuildSpec(c, input).state.sentences == map[]
  {
  }
}
