/** `SuffixGenerator`: building its three containers from a corpus of
    tikified sentences, and recombining a stored sentence with suffixes of
    others.

    The containers are held by their logical contents (how those contents
    are laid over store records is the business of `ArraySpec` and the
    container classes): the sentences by index with the size field of
    their container, and the two indexes as lists of references. */
module Suffix {
  import opened Store
  import opened SuffixIndex
  import opened SuffixGenerate

  class SuffixGenerator {
    var sentences: map<int, seq<int>>
    var count: int
    var unigrams: map<int, seq<Ref>>
    var bigrams: map<int, map<int, seq<Ref>>>

    function State(): Corpus
      reads this
    {
      Corpus(sentences, count, unigrams, bigrams)
    }

    /** Binds the generator to the containers of an opened database, whose
        contents are `stored`. */
    constructor (stored: Corpus)
      ensures State() == stored
    {
      sentences := stored.sentences;
      count := stored.count;
      unigrams := stored.unigrams;
      bigrams := stored.bigrams;
    }

    /** The body of `initialize` after the containers are opened: drop the
        short sentences, clear a store holding more sentences than the
        input, and index the missing sentences batch by batch. A batch
        that raises leaves the store as its transaction found it. */
    method Build(input: seq<seq<int>>) returns (out: Outcome<()>)
      modifies this
      ensures Built(State(), out) == BuildSpec(old(State()), input)
    {
      var u := DropShort(input);
      if count > |u| {
        sentences := map[];
        unigrams := map[];
        bigrams := map[];
      }
      ghost var c1 := State();
      if count < |u| {
        var ii := 0;
        while ii < |u|
          invariant 0 <= ii <= |u|
          invariant IngestBatches(State(), u, ii) == IngestBatches(c1, u, 0)
          decreases |u| - ii
        {
          var saved := State();
          var i, r := IngestBatch(u, ii);
          if r.Raise? {
            sentences, count, unigrams, bigrams := saved.sentences, saved.count, saved.unigrams, saved.bigrams;
            return Raise(r.fault);
          }
          ii := i;
        }
      }
      out := Ok(());
    }

    /** One transaction: the sentences `ii` up to the next multiple of the
        batch size, or the end of the input. */
    method IngestBatch(u: seq<seq<int>>, ii: int) returns (i: int, r: Outcome<()>)
      requires 0 <= ii < |u|
      modifies this
      ensures r.Ok? ==> i == if ii + BATCH < |u| then ii + BATCH else |u|
      ensures var g := IngestRange(old(State()), u, ii, ii + BATCH);
        && (r.Raise? <==> g.Raise?)
        && (g.Raise? ==> r.fault == g.fault)
        && (g.Ok? ==> State() == g.value)
    {
      ghost var c0 := State();
      i := ii;
      var s := ii + BATCH;
      while i < s && i < |u|
        invariant ii <= i <= if s < |u| then s else |u|
        invariant IngestRange(State(), u, i, s) == IngestRange(c0, u, ii, s)
        decreases |u| - i
      {
        if i !in sentences {
          IndexSentence(i, u[i]);
        } else if sentences[i] != u[i] {
          return i, Raise(DataCorrupt);
        }
        i := i + 1;
      }
      r := Ok(());
    }

    /** `@sentences[i] = tikis` and the `each_with_index` loop that files
        the sentence's references under the tikis that precede them. */
    method IndexSentence(i: int, t: seq<int>)
      modifies this
      ensures State() == Insert(old(State()), i, t)
    {
      ghost var u0, b0 := unigrams, bigrams;
      sentences := sentences[i := t];
      if i > count - 1 {
        count := i + 1;
      }
      var last := INTERIM;
      var j := 0;
      while j < |t|
        invariant 0 <= j <= |t|
        invariant last == Before(t, j)
        invariant AddAll(unigrams, UniFrom(i, t, j)) == AddAll(u0, UniFrom(i, t, 0))
        invariant AddAllBi(bigrams, BiFrom(i, t, j)) == AddAllBi(b0, BiFrom(i, t, 0))
        invariant sentences == old(sentences)[i := t]
        invariant count == if i > old(count) - 1 then i + 1 else old(count)
      {
        var tiki := t[j];
        ghost var um, bm := unigrams, bigrams;
        unigrams := unigrams[last := Refs(unigrams, last) + [Ref(i, j)]];
        if j == |t| - 1 {
          unigrams := unigrams[tiki := Refs(unigrams, tiki) + [Ref(i, INTERIM)]];
          bigrams := AddBi(bigrams, last, tiki, Ref(i, INTERIM));
        } else {
          bigrams := AddBi(bigrams, last, tiki, Ref(i, j + 1));
        }
        IndexStep(um, bm, unigrams, bigrams, i, t, j);
        last := tiki;
        j := j + 1;
      }
    }

    /** The alternatives of every position of `tikis`, filtered: the scan
        at the start of a pass. */
    method VariationSites(tikis: seq<int>, used: seq<int>, mode: Mode) returns (r: Outcome<seq<Site>>)
      ensures r == SitesFrom(State(), mode, tikis, used, 0, [])
    {
      var sites: seq<Site> := [];
      var i := 0;
      while i + 1 < |tikis|
        invariant 0 <= i
        invariant SitesFrom(State(), mode, tikis, used, i, sites) == SitesFrom(State(), mode, tikis, used, 0, [])
        decreases |tikis| - i
      {
        var alternatives := Alternatives(State(), mode, tikis[i], tikis[i + 1]);
        if alternatives.None? {
          return Raise(NilValue);
        }
        var u := Usable(alternatives.value, used);
        if u != [] {
          sites := sites + [Site(i, u)];
        }
        i := i + 1;
      }
      r := Ok(sites);
    }

    /** The loop over one site's shuffled alternatives. */
    method SearchSite(start: int, alts: seq<Ref>, st: GenState, subseq: (seq<int>, seq<int>) -> bool)
      returns (r: Search)
      requires 0 <= start && start + 2 <= |st.tikis|
      ensures r == TryAlts(State(), start, alts, 0, st, subseq)
    {
      var cur := st;
      var ib := 0;
      while ib < |alts|
        invariant 0 <= ib <= |alts|
        invariant cur.tikis == st.tikis
        invariant TryAlts(State(), start, alts, ib, cur, subseq) == TryAlts(State(), start, alts, 0, st, subseq)
      {
        var alt := alts[ib];
        if alt.sentence !in sentences {
          return Crashed(NilValue);
        }
        cur := cur.(pool := cur.pool + [sentences[alt.sentence]]);
        var suffix := RubySuffix(sentences[alt.sentence], alt.pos);
        if suffix.None? {
          return Crashed(NilValue);
        }
        var potential := cur.tikis[..start + 2] + suffix.value;
        if Unrelated(cur.pool, potential, subseq) {
          return Accepted(cur.(tikis := potential, used := cur.used + [alt.sentence]), start, alt);
        }
        ib := ib + 1;
        if ib > MAX_TRIES {
          return Stuck;
        }
      }
      r := Exhausted(cur);
    }

    /** One pass: the sites in shuffled order, each searched with its own
        shuffle, until one accepts. */
    method RunPass(mode: Mode, st: GenState, shuffle: (int, int) -> seq<int>,
                   subseq: (seq<int>, seq<int>) -> bool) returns (r: Search)
      ensures r == Pass(State(), mode, st, shuffle, subseq)
    {
      var found := VariationSites(st.tikis, st.used, mode);
      if found.Raise? {
        return Crashed(found.fault);
      }
      SitesSpec(State(), mode, st.tikis, st.used);
      var sites := Permute(found.value, shuffle(st.draws, |found.value|));
      var cur := st.(draws := st.draws + 1);
      var ia := 0;
      while ia < |sites|
        invariant 0 <= ia <= |sites|
        invariant Inside(sites, cur.tikis)
        invariant TrySites(State(), sites, ia, cur, shuffle, subseq) == Pass(State(), mode, st, shuffle, subseq)
      {
        var site := sites[ia];
        var alts := Permute(site.alts, shuffle(cur.draws, |site.alts|));
        var s := SearchSite(site.start, alts, cur.(draws := cur.draws + 1), subseq);
        if !s.Exhausted? {
          return s;
        }
        cur := s.st;
        ia := ia + 1;
      }
      r := Exhausted(cur);
    }

    /** `generate(passes, mode)`, with the index drawn by `rand` given as
        `pick` and the shuffles as `shuffle`. */
    method Generate(passes: int, mode: Mode, pick: int, shuffle: (int, int) -> seq<int>,
                    subseq: (seq<int>, seq<int>) -> bool) returns (r: Outcome<Option<seq<int>>>)
      requires count != 0 ==> 0 <= pick < Abs(count)
      ensures r == GenerateSpec(State(), passes, mode, pick, shuffle, subseq)
    {
      if count == 0 || pick !in sentences {
        if passes < 0 {
          return Ok(None);
        }
        return Raise(NilValue);
      }
      var tikis := sentences[pick];
      var st := GenState(tikis, [pick], [tikis], 0);
      ghost var st0 := st;
      var passno := 0;
      while passno <= passes
        invariant Run(State(), mode, st, passno, passes, shuffle, subseq) == Run(State(), mode, st0, 0, passes, shuffle, subseq)
        decreases passes + 1 - passno
      {
        var p := RunPass(mode, st, shuffle, subseq);
        if p.Stuck? {
          return Ok(None);
        }
        if p.Crashed? {
          return Raise(p.fault);
        }
        st := p.st;
        passno := passno + 1;
      }
      r := Ok(Some(st.tikis));
    }
  }

  /** One turn of the indexing loop appends exactly the references of its
      position. */
  lemma IndexStep(um: map<int, seq<Ref>>, bm: map<int, map<int, seq<Ref>>>,
                  un: map<int, seq<Ref>>, bn: map<int, map<int, seq<Ref>>>, i: int, t: seq<int>, j: int)
    requires 0 <= j < |t|
    requires un == if j == |t| - 1
                   then var m1 := um[Before(t, j) := Refs(um, Before(t, j)) + [Ref(i, j)]];
                        m1[t[j] := Refs(m1, t[j]) + [Ref(i, INTERIM)]]
                   else um[Before(t, j) := Refs(um, Before(t, j)) + [Ref(i, j)]]
    requires bn == AddBi(bm, Before(t, j), t[j], Ref(i, if j == |t| - 1 then INTERIM else j + 1))
    ensures AddAll(un, UniFrom(i, t, j + 1)) == AddAll(um, UniFrom(i, t, j))
    ensures AddAllBi(bn, BiFrom(i, t, j + 1)) == AddAllBi(bm, BiFrom(i, t, j))
  {
    var a := UniAt(i, t, j);
    AddAllConcat(um, a, UniFrom(i, t, j + 1));
    var m1 := um[Before(t, j) := Refs(um, Before(t, j)) + [Ref(i, j)]];
    assert a[0] == (Before(t, j), Ref(i, j));
    assert AddAll(um, a) == AddAll(m1, a[1..]);
    if j == |t| - 1 {
      assert a[1..] == [(t[j], Ref(i, INTERIM))];
      assert AddAll(m1, a[1..]) == AddAll(m1[t[j] := Refs(m1, t[j]) + [Ref(i, INTERIM)]], a[1..][1..]);
      assert a[1..][1..] == [];
    } else {
      assert a[1..] == [];
    }
    assert AddAll(um, a) == un;
    var ps := BiFrom(i, t, j);
    assert ps[0] == BiAt(i, t, j) && ps[1..] == BiFrom(i, t, j + 1);
  }
}
