/** What `SuffixGenerator#generate` computes, over the logical contents of
    the generator's containers.

    The random draws are injected: `pick` is the index `rand` returns, and
    `shuffle(d, n)` is the order in which the `d`-th shuffle of the run
    arranges a list of `n` elements. The subsequence test the source takes
    from its NLP helpers is the parameter `subseq`. */
module SuffixGenerate {
  import opened Store
  import opened SuffixIndex

  /** Which index a pass consults for the alternatives at a site. */
  datatype Mode = Unigrams | Bigrams

  /** A site whose alternatives run past this many gives up the whole run. */
  const MAX_TRIES: int := 100000

  /** A variation site: the position `start` of the current sentence, and
      the references that may continue it after `start + 1`. */
  datatype Site = Site(start: int, alts: seq<Ref>)

  /** The run's variables: the current sentence, the sentences already
      used, the verbatim pool, and the number of shuffles drawn so far. */
  datatype GenState = GenState(tikis: seq<int>, used: seq<int>, pool: seq<seq<int>>, draws: int)

  /** How the search at one site, or one pass, ends. */
  datatype Search =
    | Accepted(st: GenState, start: int, alt: Ref)
    | Exhausted(st: GenState)
    | Stuck
    | Crashed(fault: Fault)

  /** `@unigrams[next]`, or `@bigrams[tiki][next]`; `None` when a lookup
      on the way is nil, which makes `reject!` raise. */
  function Alternatives(c: Corpus, mode: Mode, tiki: int, next: int): Option<seq<Ref>>
  {
    match mode
    case Unigrams => if next in c.unigrams then Some(c.unigrams[next]) else None
    case Bigrams => if tiki in c.bigrams && next in c.bigrams[tiki] then Some(c.bigrams[tiki][next]) else None
  }

  /** The alternatives that survive the filter: no end marker, no sentence
      used already. The filter keeps their order. */
  function Usable(alts: seq<Ref>, used: seq<int>): (u: seq<Ref>)
    ensures forall r :: r in u <==> r in alts && r.pos != INTERIM && r.sentence !in used
    ensures |u| <= |alts|
    decreases |alts|
  {
    if alts == [] then []
    else (if alts[0].pos == INTERIM || alts[0].sentence in used then [] else [alts[0]]) + Usable(alts[1..], used)
  }

  /** A site the scan of `tikis` records. */
  ghost predicate SiteOk(c: Corpus, mode: Mode, tikis: seq<int>, used: seq<int>, s: Site)
  {
    && 0 <= s.start && s.start + 1 < |tikis|
    && Alternatives(c, mode, tikis[s.start], tikis[s.start + 1]).Some?
    && s.alts == Usable(Alternatives(c, mode, tikis[s.start], tikis[s.start + 1]).value, used)
    && s.alts != []
  }

  ghost predicate Ascending(sites: seq<Site>)
  {
    forall a, b :: 0 <= a < b < |sites| ==> sites[a].start < sites[b].start
  }

  /** The scan `tikis.each_with_index`, from position `i` on, with the
      sites recorded so far in `acc`. */
  function SitesFrom(c: Corpus, mode: Mode, tikis: seq<int>, used: seq<int>, i: int, acc: seq<Site>): Outcome<seq<Site>>
    requires 0 <= i
    decreases |tikis| - i
  {
    if i + 1 >= |tikis| then Ok(acc)
    else
      match Alternatives(c, mode, tikis[i], tikis[i + 1])
      case None => Raise(NilValue)
      case Some(alts) =>
        var u := Usable(alts, used);
        SitesFrom(c, mode, tikis, used, i + 1, if u == [] then acc else acc + [Site(i, u)])
  }

  /** The scan raises exactly when a lookup on the way is nil. */
  lemma {:induction false} SitesFromRaises(c: Corpus, mode: Mode, tikis: seq<int>, used: seq<int>, i: int, acc: seq<Site>)
    requires 0 <= i
    ensures var r := SitesFrom(c, mode, tikis, used, i, acc);
      && (r.Raise? <==> exists j :: i <= j && j + 1 < |tikis| && Alternatives(c, mode, tikis[j], tikis[j + 1]).None?)
      && (r.Raise? ==> r.fault == NilValue)
    decreases |tikis| - i
  {
    if i + 1 < |tikis| && Alternatives(c, mode, tikis[i], tikis[i + 1]).Some? {
      var u := Usable(Alternatives(c, mode, tikis[i], tikis[i + 1]).value, used);
      SitesFromRaises(c, mode, tikis, used, i + 1, if u == [] then acc else acc + [Site(i, u)]);
    }
  }

  /** Otherwise it records every position that has a usable alternative,
      once, in ascending order, and nothing else. */
  lemma {:induction false} SitesFromRecords(c: Corpus, mode: Mode, tikis: seq<int>, used: seq<int>, i: int, acc: seq<Site>)
    requires 0 <= i
    requires forall s :: s in acc ==> SiteOk(c, mode, tikis, used, s) && s.start < i
    requires Ascending(acc)
    ensures var r := SitesFrom(c, mode, tikis, used, i, acc);
      r.Ok? ==> Ascending(r.value) && forall s :: s in r.value <==> s in acc || (SiteOk(c, mode, tikis, used, s) && s.start >= i)
    decreases |tikis| - i
  {
    if i + 1 >= |tikis| {
      assert forall s :: SiteOk(c, mode, tikis, used, s) ==> s.start < i;
    } else {
      var alts := Alternatives(c, mode, tikis[i], tikis[i + 1]);
      if alts.Some? {
        var u := Usable(alts.value, used);
        var acc1 := if u == [] then acc else acc + [Site(i, u)];
        SiteAppend(c, mode, tikis, used, i, acc, u);
        SitesFromRecords(c, mode, tikis, used, i + 1, acc1);
        SiteStep(c, mode, tikis, used, i, acc, u);
      }
    }
  }

  lemma SiteAppend(c: Corpus, mode: Mode, tikis: seq<int>, used: seq<int>, i: int, acc: seq<Site>, u: seq<Ref>)
    requires 0 <= i && i + 1 < |tikis|
    requires Alternatives(c, mode, tikis[i], tikis[i + 1]).Some?
    requires u == Usable(Alternatives(c, mode, tikis[i], tikis[i + 1]).value, used)
    requires forall s :: s in acc ==> SiteOk(c, mode, tikis, used, s) && s.start < i
    requires Ascending(acc)
    ensures var acc1 := if u == [] then acc else acc + [Site(i, u)];
      && (forall s :: s in acc1 ==> SiteOk(c, mode, tikis, used, s) && s.start < i + 1)
      && Ascending(acc1)
  {
    if u != [] {
      var acc1 := acc + [Site(i, u)];
      forall a, b | 0 <= a < b < |acc1| ensures acc1[a].start < acc1[b].start {
        assert acc1[a] in acc;
      }
    }
  }

  lemma SiteStep(c: Corpus, mode: Mode, tikis: seq<int>, used: seq<int>, i: int, acc: seq<Site>, u: seq<Ref>)
    requires 0 <= i && i + 1 < |tikis|
    requires Alternatives(c, mode, tikis[i], tikis[i + 1]).Some?
    requires u == Usable(Alternatives(c, mode, tikis[i], tikis[i + 1]).value, used)
    ensures var acc1 := if u == [] then acc else acc + [Site(i, u)];
      forall s :: (s in acc1 || (SiteOk(c, mode, tikis, used, s) && s.start >= i + 1))
                  <==> (s in acc || (SiteOk(c, mode, tikis, used, s) && s.start >= i))
  {
    var acc1 := if u == [] then acc else acc + [Site(i, u)];
    forall s ensures (s in acc1 || (SiteOk(c, mode, tikis, used, s) && s.start >= i + 1))
                     <==> (s in acc || (SiteOk(c, mode, tikis, used, s) && s.start >= i))
    {
      if SiteOk(c, mode, tikis, used, s) && s.start == i {
        assert s == Site(i, u);
      }
    }
  }

  /** The scan of the whole sentence. */
  lemma SitesSpec(c: Corpus, mode: Mode, tikis: seq<int>, used: seq<int>)
    ensures var r := SitesFrom(c, mode, tikis, used, 0, []);
      && (r.Raise? <==> exists j :: 0 <= j && j + 1 < |tikis| && Alternatives(c, mode, tikis[j], tikis[j + 1]).None?)
      && (r.Ok? ==> Ascending(r.value))
      && (r.Ok? ==> forall s :: s in r.value <==> SiteOk(c, mode, tikis, used, s))
  {
    SitesFromRaises(c, mode, tikis, used, 0, []);
    SitesFromRecords(c, mode, tikis, used, 0, []);
  }

  /** `order` arranges a list of `n` elements: each index once. */
  ghost predicate IsPerm(order: seq<int>, n: int)
  {
    && |order| == n
    && (forall k :: 0 <= k < |order| ==> 0 <= order[k] < n)
    && (forall a, b :: 0 <= a < b < |order| ==> order[a] != order[b])
  }

  /** `xs` in the order `order`; an index outside `xs` contributes nothing. */
  function Permute<T>(xs: seq<T>, order: seq<int>): (r: seq<T>)
    ensures forall y :: y in r ==> y in xs
    ensures (forall k :: 0 <= k < |order| ==> 0 <= order[k] < |xs|) ==> |r| == |order|
    decreases |order|
  {
    if order == [] then []
    else (if 0 <= order[0] < |xs| then [xs[order[0]]] else []) + Permute(xs, order[1..])
  }

  /** Ruby's `s[p..-1]`: a negative `p` counts from the end, and a start
      outside the array gives nil. */
  function RubySuffix(s: seq<int>, p: int): (r: Option<seq<int>>)
    ensures r.None? <==> p > |s| || p < -|s|
    ensures r.Some? ==> |r.value| <= |s| && r.value == s[|s| - |r.value|..]
    ensures 0 <= p <= |s| ==> r.Some? && |r.value| == |s| - p
  {
    var q := if p < 0 then p + |s| else p;
    if q < 0 || q > |s| then None else Some(s[q..])
  }

  /** Neither sentence is a subsequence of the other, for every sentence of
      the pool. */
  predicate Unrelated(pool: seq<seq<int>>, potential: seq<int>, subseq: (seq<int>, seq<int>) -> bool)
  {
    forall v :: v in pool ==> !subseq(v, potential) && !subseq(potential, v)
  }

  /** The loop over one site's shuffled alternatives, from the `k`-th on.
      Each examined alternative's sentence joins the pool before the test;
      splicing its suffix after `tikis[0..start+1]` is accepted when it is
      unrelated to the whole pool. */
  function TryAlts(c: Corpus, start: int, alts: seq<Ref>, k: int, st: GenState,
                   subseq: (seq<int>, seq<int>) -> bool): (r: Search)
    requires 0 <= start && start + 2 <= |st.tikis|
    requires 0 <= k <= |alts|
    ensures r.Exhausted? ==> r.st.tikis == st.tikis && r.st.used == st.used && r.st.draws == st.draws
    decreases |alts| - k
  {
    if k == |alts| then Exhausted(st)
    else
      var a := alts[k];
      if a.sentence !in c.sentences then Crashed(NilValue)
      else
        var s := c.sentences[a.sentence];
        var st1 := st.(pool := st.pool + [s]);
        match RubySuffix(s, a.pos)
        case None => Crashed(NilValue)
        case Some(suffix) =>
          var potential := st.tikis[..start + 2] + suffix;
          if Unrelated(st1.pool, potential, subseq) then
            Accepted(st1.(tikis := potential, used := st.used + [a.sentence]), start, a)
          else if k + 1 > MAX_TRIES then Stuck
          else TryAlts(c, start, alts, k + 1, st1, subseq)
  }

  /** `sites` all lie inside the sentence. */
  ghost predicate Inside(sites: seq<Site>, tikis: seq<int>)
  {
    forall s :: s in sites ==> 0 <= s.start && s.start + 2 <= |tikis|
  }

  /** The loop over the shuffled sites, from the `m`-th on; each site draws
      one shuffle of its alternatives. The first acceptance ends the pass. */
  function TrySites(c: Corpus, sites: seq<Site>, m: int, st: GenState,
                    shuffle: (int, int) -> seq<int>, subseq: (seq<int>, seq<int>) -> bool): (r: Search)
    requires 0 <= m <= |sites|
    requires Inside(sites, st.tikis)
    ensures r.Exhausted? ==> r.st.tikis == st.tikis && r.st.used == st.used
    decreases |sites| - m
  {
    if m == |sites| then Exhausted(st)
    else
      var site := sites[m];
      var alts := Permute(site.alts, shuffle(st.draws, |site.alts|));
      var r := TryAlts(c, site.start, alts, 0, st.(draws := st.draws + 1), subseq);
      if r.Exhausted? then TrySites(c, sites, m + 1, r.st, shuffle, subseq) else r
  }

  /** One pass: scan for sites, shuffle them, search them in turn. */
  function Pass(c: Corpus, mode: Mode, st: GenState,
                shuffle: (int, int) -> seq<int>, subseq: (seq<int>, seq<int>) -> bool): (r: Search)
    ensures r.Exhausted? ==> r.st.tikis == st.tikis && r.st.used == st.used
  {
    var found := SitesFrom(c, mode, st.tikis, st.used, 0, []);
    if found.Raise? then Crashed(found.fault)
    else
      SitesSpec(c, mode, st.tikis, st.used);
      var sites := Permute(found.value, shuffle(st.draws, |found.value|));
      TrySites(c, sites, 0, st.(draws := st.draws + 1), shuffle, subseq)
  }

  /** The passes `passno..passes`; a stuck site returns nil at once. */
  function Run(c: Corpus, mode: Mode, st: GenState, passno: int, passes: int,
               shuffle: (int, int) -> seq<int>, subseq: (seq<int>, seq<int>) -> bool): Outcome<Option<GenState>>
    decreases passes + 1 - passno
  {
    if passno > passes then Ok(Some(st))
    else
      match Pass(c, mode, st, shuffle, subseq)
      case Accepted(st1, _, _) => Run(c, mode, st1, passno + 1, passes, shuffle, subseq)
      case Exhausted(st1) => Run(c, mode, st1, passno + 1, passes, shuffle, subseq)
      case Stuck => Ok(None)
      case Crashed(f) => Raise(f)
  }

  function Abs(n: int): int
  {
    if n < 0 then -n else n
  }

  /** The sentence `@sentences[rand(@sentences.length)]`. `rand(0)` draws a
      float, under which nothing is stored. */
  function Start(c: Corpus, pick: int): Option<seq<int>>
  {
    if c.count != 0 && pick in c.sentences then Some(c.sentences[pick]) else None
  }

  /** `generate(passes, mode)`: `Ok(None)` is the nil it returns. With no
      start sentence, the first pass calls a method on nil. */
  function GenerateSpec(c: Corpus, passes: int, mode: Mode, pick: int,
                        shuffle: (int, int) -> seq<int>, subseq: (seq<int>, seq<int>) -> bool): Outcome<Option<seq<int>>>
    requires c.count != 0 ==> 0 <= pick < Abs(c.count)
  {
    match Start(c, pick)
    case None => if passes < 0 then Ok(None) else Raise(NilValue)
    case Some(t) =>
      match Run(c, mode, GenState(t, [pick], [t], 0), 0, passes, shuffle, subseq)
      case Raise(f) => Raise(f)
      case Ok(None) => Ok(None)
      case Ok(Some(st)) => Ok(Some(st.tikis))
  }

  // ---------------------------------------------------------------------
  // properties of one site, one pass, and the run

  /** `b` starts with `a`. */
  ghost predicate Grows<T>(a: seq<T>, b: seq<T>)
  {
    |a| <= |b| && b[..|a|] == a
  }

  lemma GrowsTrans<T>(a: seq<T>, b: seq<T>, d: seq<T>)
    requires Grows(a, b) && Grows(b, d)
    ensures Grows(a, d)
  {
    assert d[..|a|] == d[..|b|][..|a|];
  }

  /** What an accepted alternative `r.alt` at `r.start` makes of state `st`:
      the prefix `tikis[0..start+1]` followed by the alternative's suffix,
      its sentence added to `used` and to the pool, and the new sentence
      unrelated to every sentence of the pool. */
  ghost predicate Spliced(c: Corpus, st: GenState, r: Search, subseq: (seq<int>, seq<int>) -> bool)
  {
    && r.Accepted?
    && 0 <= r.start && r.start + 2 <= |st.tikis|
    && r.alt.sentence in c.sentences
    && RubySuffix(c.sentences[r.alt.sentence], r.alt.pos).Some?
    && r.st.tikis == st.tikis[..r.start + 2] + RubySuffix(c.sentences[r.alt.sentence], r.alt.pos).value
    && r.st.used == st.used + [r.alt.sentence]
    && c.sentences[r.alt.sentence] in r.st.pool
    && Unrelated(r.st.pool, r.st.tikis, subseq)
    && Grows(st.pool, r.st.pool)
  }

  /** The search at one site accepts one of its alternatives as a splice,
      runs out of them leaving the sentence alone, or gives up only after
      more than `MAX_TRIES` of them. */
  lemma {:induction false} TryAltsSpec(c: Corpus, start: int, alts: seq<Ref>, k: int, st: GenState,
                                       subseq: (seq<int>, seq<int>) -> bool)
    requires 0 <= start && start + 2 <= |st.tikis|
    requires 0 <= k <= |alts|
    ensures var r := TryAlts(c, start, alts, k, st, subseq);
      && (r.Accepted? ==> Spliced(c, st, r, subseq) && r.start == start && r.alt in alts[k..] && r.st.draws == st.draws)
      && (r.Exhausted? ==> Grows(st.pool, r.st.pool))
      && (r.Stuck? ==> |alts| > MAX_TRIES)
    decreases |alts| - k
  {
    if k < |alts| && alts[k].sentence in c.sentences {
      var s := c.sentences[alts[k].sentence];
      var st1 := st.(pool := st.pool + [s]);
      assert Grows(st.pool, st1.pool);
      if RubySuffix(s, alts[k].pos).Some? {
        var potential := st.tikis[..start + 2] + RubySuffix(s, alts[k].pos).value;
        if !Unrelated(st1.pool, potential, subseq) && k + 1 <= MAX_TRIES {
          TryAltsSpec(c, start, alts, k + 1, st1, subseq);
          var r := TryAlts(c, start, alts, k + 1, st1, subseq);
          if r.Accepted? || r.Exhausted? { GrowsTrans(st.pool, st1.pool, r.st.pool); }
          assert alts[k + 1..] == alts[k..][1..];
        }
      }
    }
  }

  /** The search over the shuffled sites: an acceptance comes from one of
      the sites, and an exhausted search leaves the sentence alone. */
  lemma {:induction false} TrySitesSpec(c: Corpus, sites: seq<Site>, m: int, st: GenState,
                                        shuffle: (int, int) -> seq<int>, subseq: (seq<int>, seq<int>) -> bool)
    requires 0 <= m <= |sites|
    requires Inside(sites, st.tikis)
    ensures var r := TrySites(c, sites, m, st, shuffle, subseq);
      && (r.Accepted? ==> Spliced(c, st, r, subseq) && exists site :: site in sites[m..] && site.start == r.start && r.alt in site.alts)
      && (r.Exhausted? ==> Grows(st.pool, r.st.pool))
      && (r.Stuck? && Shuffles(shuffle) ==> exists site :: site in sites[m..] && |site.alts| > MAX_TRIES)
    decreases |sites| - m
  {
    if m < |sites| {
      var site := sites[m];
      var order := shuffle(st.draws, |site.alts|);
      var alts := Permute(site.alts, order);
      var st1 := st.(draws := st.draws + 1);
      TryAltsSpec(c, site.start, alts, 0, st1, subseq);
      var r := TryAlts(c, site.start, alts, 0, st1, subseq);
      assert site in sites[m..];
      if r.Exhausted? {
        TrySitesSpec(c, sites, m + 1, r.st, shuffle, subseq);
        var r2 := TrySites(c, sites, m + 1, r.st, shuffle, subseq);
        assert sites[m + 1..] == sites[m..][1..];
        if r2.Accepted? {
          assert Spliced(c, r.st, r2, subseq);
          GrowsTrans(st.pool, r.st.pool, r2.st.pool);
        }
        if r2.Exhausted? { GrowsTrans(st.pool, r.st.pool, r2.st.pool); }
      } else if r.Accepted? {
        assert r.alt in site.alts;
      } else if r.Stuck? && Shuffles(shuffle) {
        assert IsPerm(order, |site.alts|);
      }
    }
  }

  /** Every shuffle arranges its list: each index once. */
  ghost predicate Shuffles(shuffle: (int, int) -> seq<int>)
  {
    forall d, n :: 0 <= n ==> IsPerm(shuffle(d, n), n)
  }

  /** A pass accepts at most one variant: a splice at a recorded site,
      using an alternative that passed the filter. Without an acceptance
      the sentence and `used` stay as they were (the ensures of `Pass`)
      and the pool only grows. */
  lemma PassSpec(c: Corpus, mode: Mode, st: GenState,
                 shuffle: (int, int) -> seq<int>, subseq: (seq<int>, seq<int>) -> bool)
    ensures var r := Pass(c, mode, st, shuffle, subseq);
      && (r.Accepted? ==>
            && Spliced(c, st, r, subseq)
            && r.start + 1 < |st.tikis|
            && Alternatives(c, mode, st.tikis[r.start], st.tikis[r.start + 1]).Some?
            && r.alt in Alternatives(c, mode, st.tikis[r.start], st.tikis[r.start + 1]).value
            && r.alt.pos != INTERIM && r.alt.sentence !in st.used)
      && (r.Exhausted? ==> Grows(st.pool, r.st.pool))
  {
    var found := SitesFrom(c, mode, st.tikis, st.used, 0, []);
    if found.Ok? {
      SitesSpec(c, mode, st.tikis, st.used);
      var sites := Permute(found.value, shuffle(st.draws, |found.value|));
      var st1 := st.(draws := st.draws + 1);
      TrySitesSpec(c, sites, 0, st1, shuffle, subseq);
      var r := TrySites(c, sites, 0, st1, shuffle, subseq);
      assert Pass(c, mode, st, shuffle, subseq) == r;
      assert sites[0..] == sites;
      if r.Accepted? {
        var site :| site in sites && site.start == r.start && r.alt in site.alts;
        AcceptedSite(c, mode, st.tikis, st.used, site, r.alt);
      }
    }
  }

  lemma AcceptedSite(c: Corpus, mode: Mode, tikis: seq<int>, used: seq<int>, site: Site, a: Ref)
    requires SiteOk(c, mode, tikis, used, site) && a in site.alts
    ensures Alternatives(c, mode, tikis[site.start], tikis[site.start + 1]).Some?
    ensures a in Alternatives(c, mode, tikis[site.start], tikis[site.start + 1]).value
    ensures a.pos != INTERIM && a.sentence !in used
  {
  }

  /** A pass gives up only when one of its sites has more than `MAX_TRIES`
      alternatives. */
  lemma PassGivesUp(c: Corpus, mode: Mode, st: GenState,
                    shuffle: (int, int) -> seq<int>, subseq: (seq<int>, seq<int>) -> bool)
    requires Shuffles(shuffle)
    ensures Pass(c, mode, st, shuffle, subseq).Stuck? ==>
              exists s :: SiteOk(c, mode, st.tikis, st.used, s) && |s.alts| > MAX_TRIES
  {
    var found := SitesFrom(c, mode, st.tikis, st.used, 0, []);
    if found.Ok? {
      SitesSpec(c, mode, st.tikis, st.used);
      var sites := Permute(found.value, shuffle(st.draws, |found.value|));
      var st1 := st.(draws := st.draws + 1);
      TrySitesSpec(c, sites, 0, st1, shuffle, subseq);
      var r := TrySites(c, sites, 0, st1, shuffle, subseq);
      assert Pass(c, mode, st, shuffle, subseq) == r;
      assert sites[0..] == sites;
      if r.Stuck? {
        var site :| site in sites && |site.alts| > MAX_TRIES;
        assert site in found.value;
      }
    }
  }

  ghost predicate NoDup(xs: seq<int>)
  {
    forall a, b :: 0 <= a < b < |xs| ==> xs[a] != xs[b]
  }

  /** Over the passes `passno..passes`: `used` only grows, by at most one
      sentence a pass and never by one it holds; and the final sentence is
      the one the passes started from or unrelated to every sentence of
      the pool they started with. */
  lemma {:induction false} RunSpec(c: Corpus, mode: Mode, st: GenState, passno: int, passes: int,
                                   shuffle: (int, int) -> seq<int>, subseq: (seq<int>, seq<int>) -> bool)
    ensures var r := Run(c, mode, st, passno, passes, shuffle, subseq);
      r.Ok? && r.value.Some? ==>
        var fin := r.value.value;
        && Grows(st.used, fin.used)
        && |fin.used| <= |st.used| + (if passno > passes then 0 else passes + 1 - passno)
        && (NoDup(st.used) ==> NoDup(fin.used))
        && Grows(st.pool, fin.pool)
        && (fin.tikis == st.tikis || Unrelated(st.pool, fin.tikis, subseq))
    decreases passes + 1 - passno
  {
    if passno <= passes {
      PassSpec(c, mode, st, shuffle, subseq);
      var p := Pass(c, mode, st, shuffle, subseq);
      if p.Accepted? || p.Exhausted? {
        var st1 := p.st;
        RunSpec(c, mode, st1, passno + 1, passes, shuffle, subseq);
        var r := Run(c, mode, st1, passno + 1, passes, shuffle, subseq);
        if r.Ok? && r.value.Some? {
          var fin := r.value.value;
          if p.Accepted? {
            AppendKeepsNoDup(st.used, p.alt.sentence);
            assert Grows(st.used, st1.used);
          }
          GrowsTrans(st.used, st1.used, fin.used);
          GrowsTrans(st.pool, st1.pool, fin.pool);
          UnrelatedShrinks(st.pool, st1.pool, fin.tikis, subseq);
        }
      }
    }
  }

  lemma AppendKeepsNoDup(xs: seq<int>, x: int)
    requires x !in xs
    ensures NoDup(xs) ==> NoDup(xs + [x])
  {
  }

  /** Being unrelated to a pool carries over to every pool it extends. */
  lemma UnrelatedShrinks(a: seq<seq<int>>, b: seq<seq<int>>, t: seq<int>, subseq: (seq<int>, seq<int>) -> bool)
    requires Grows(a, b)
    ensures Unrelated(b, t, subseq) ==> Unrelated(a, t, subseq)
  {
    assert forall v :: v in a ==> v in b[..|a|];
  }

  // ---------------------------------------------------------------------
  // the generated sentence

  /** `y` follows `x` in some stored sentence (`x` is the sentinel when
      `y` begins it). */
  ghost predicate Follows(c: Corpus, x: int, y: int)
  {
    exists i, k :: i in c.sentences && 0 <= k < |c.sentences[i]| && Before(c.sentences[i], k) == x && c.sentences[i][k] == y
  }

  /** Every tiki of `t` follows its predecessor somewhere in the corpus. */
  ghost predicate Chained(c: Corpus, t: seq<int>)
  {
    forall j :: 0 <= j < |t| ==> Follows(c, Before(t, j), t[j])
  }

  lemma StoredIsChained(c: Corpus, i: int)
    requires i in c.sentences
    ensures Chained(c, c.sentences[i])
  {
    var t := c.sentences[i];
    forall j | 0 <= j < |t| ensures Follows(c, Before(t, j), t[j]) {
      assert i in c.sentences && 0 <= j < |c.sentences[i]| && Before(c.sentences[i], j) == Before(t, j) && c.sentences[i][j] == t[j];
    }
  }

  /** Splicing the suffix from `p` of a stored sentence after a tiki that
      precedes `p` there keeps a chained sentence chained. */
  lemma SpliceChained(c: Corpus, t: seq<int>, start: int, i: int, p: int)
    requires Chained(c, t)
    requires 0 <= start && start + 2 <= |t|
    requires i in c.sentences && 0 <= p < |c.sentences[i]|
    requires Before(c.sentences[i], p) == t[start + 1]
    ensures Chained(c, t[..start + 2] + c.sentences[i][p..])
  {
    var s := c.sentences[i];
    var v := t[..start + 2] + s[p..];
    forall j | 0 <= j < |v| ensures Follows(c, Before(v, j), v[j]) {
      if j < start + 2 {
        assert Before(v, j) == Before(t, j) && v[j] == t[j];
      } else {
        var k := p + j - (start + 2);
        assert v[j] == s[k];
        assert Before(v, j) == Before(s, k);
        assert i in c.sentences && 0 <= k < |c.sentences[i]| && Before(c.sentences[i], k) == Before(v, j) && c.sentences[i][k] == v[j];
      }
    }
  }

  /** In a sound corpus, an alternative that passed the filter points into
      its sentence right after the site's second tiki. */
  lemma SoundAlternative(c: Corpus, mode: Mode, x: int, y: int, a: Ref)
    requires Sound(c)
    requires Alternatives(c, mode, x, y).Some? && a in Alternatives(c, mode, x, y).value
    requires a.pos != INTERIM
    ensures a.sentence in c.sentences
    ensures 0 <= a.pos < |c.sentences[a.sentence]| && Before(c.sentences[a.sentence], a.pos) == y
  {
  }

  /** The converse over a complete corpus: every position of a stored
      sentence that follows the site's tikis is among the site's
      alternatives, and survives the filter unless its sentence is used. */
  lemma OfferedContinuation(c: Corpus, mode: Mode, x: int, y: int, i: int, p: int, used: seq<int>)
    requires Complete(c) && i in c.sentences
    requires 0 <= p < |c.sentences[i]| && Before(c.sentences[i], p) == y
    requires mode == Bigrams ==> 1 <= p && Before(c.sentences[i], p - 1) == x
    ensures Alternatives(c, mode, x, y).Some? && Ref(i, p) in Alternatives(c, mode, x, y).value
    ensures i !in used ==> Ref(i, p) in Usable(Alternatives(c, mode, x, y).value, used)
  {
    assert Filed(c, i, c.sentences[i]);
    if mode == Unigrams {
      assert UniRefOk(c.sentences[i], y, p);
    } else {
      assert BiRefOk(c.sentences[i], x, y, p);
    }
  }

  /** In a sound corpus a pass keeps the sentence chained. */
  lemma PassKeepsChained(c: Corpus, mode: Mode, st: GenState,
                         shuffle: (int, int) -> seq<int>, subseq: (seq<int>, seq<int>) -> bool)
    requires Sound(c) && Chained(c, st.tikis)
    ensures var r := Pass(c, mode, st, shuffle, subseq);
      (r.Accepted? || r.Exhausted?) ==> Chained(c, r.st.tikis)
  {
    PassSpec(c, mode, st, shuffle, subseq);
    var r := Pass(c, mode, st, shuffle, subseq);
    if r.Accepted? {
      AcceptedChained(c, mode, st, r, subseq);
    }
  }

  lemma AcceptedChained(c: Corpus, mode: Mode, st: GenState, r: Search, subseq: (seq<int>, seq<int>) -> bool)
    requires Sound(c) && Chained(c, st.tikis)
    requires Spliced(c, st, r, subseq)
    requires r.start + 1 < |st.tikis|
    requires Alternatives(c, mode, st.tikis[r.start], st.tikis[r.start + 1]).Some?
    requires r.alt in Alternatives(c, mode, st.tikis[r.start], st.tikis[r.start + 1]).value
    requires r.alt.pos != INTERIM
    ensures Chained(c, r.st.tikis)
  {
    SoundAlternative(c, mode, st.tikis[r.start], st.tikis[r.start + 1], r.alt);
    SuffixChained(c, st.tikis, r.start, r.alt.sentence, r.alt.pos, r.st.tikis);
  }

  /** The suffix that `s[p..-1]` splices, at a position inside the
      sentence, keeps a chained sentence chained. */
  lemma SuffixChained(c: Corpus, t: seq<int>, start: int, i: int, p: int, v: seq<int>)
    requires Chained(c, t)
    requires 0 <= start && start + 2 <= |t|
    requires i in c.sentences && 0 <= p < |c.sentences[i]|
    requires Before(c.sentences[i], p) == t[start + 1]
    requires RubySuffix(c.sentences[i], p).Some? && v == t[..start + 2] + RubySuffix(c.sentences[i], p).value
    ensures Chained(c, v)
  {
    var s := c.sentences[i];
    assert RubySuffix(s, p).value == s[p..];
    SpliceChained(c, t, start, i, p);
  }

  lemma {:induction false} RunKeepsChained(c: Corpus, mode: Mode, st: GenState, passno: int, passes: int,
                                           shuffle: (int, int) -> seq<int>, subseq: (seq<int>, seq<int>) -> bool)
    requires Sound(c) && Chained(c, st.tikis)
    ensures var r := Run(c, mode, st, passno, passes, shuffle, subseq);
      r.Ok? && r.value.Some? ==> Chained(c, r.value.value.tikis)
    decreases passes + 1 - passno
  {
    if passno <= passes {
      PassKeepsChained(c, mode, st, shuffle, subseq);
      var p := Pass(c, mode, st, shuffle, subseq);
      if p.Accepted? || p.Exhausted? {
        RunKeepsChained(c, mode, p.st, passno + 1, passes, shuffle, subseq);
      }
    }
  }

  /** The generated sentence is the start sentence, or neither it nor the
      start sentence is a subsequence of the other. */
  lemma GenerateAvoidsStart(c: Corpus, passes: int, mode: Mode, pick: int,
                            shuffle: (int, int) -> seq<int>, subseq: (seq<int>, seq<int>) -> bool)
    requires c.count != 0 ==> 0 <= pick < Abs(c.count)
    ensures var g := GenerateSpec(c, passes, mode, pick, shuffle, subseq);
      g.Ok? && g.value.Some? ==>
        Start(c, pick).Some? &&
        var t := Start(c, pick).value;
        g.value.value == t || (!subseq(t, g.value.value) && !subseq(g.value.value, t))
  {
    if Start(c, pick).Some? {
      var t := Start(c, pick).value;
      RunSpec(c, mode, GenState(t, [pick], [t], 0), 0, passes, shuffle, subseq);
      assert t in [t];
    }
  }

  /** In a sound corpus, every tiki of the generated sentence follows its
      predecessor in some stored sentence: recombination only joins
      sentences where they share a tiki. */
  lemma GenerateIsChained(c: Corpus, passes: int, mode: Mode, pick: int,
                          shuffle: (int, int) -> seq<int>, subseq: (seq<int>, seq<int>) -> bool)
    requires c.count != 0 ==> 0 <= pick < Abs(c.count)
    requires Sound(c)
    ensures var g := GenerateSpec(c, passes, mode, pick, shuffle, subseq);
      g.Ok? && g.value.Some? ==> Chained(c, g.value.value)
  {
    if Start(c, pick).Some? {
      var t := Start(c, pick).value;
      StoredIsChained(c, pick);
      RunKeepsChained(c, mode, GenState(t, [pick], [t], 0), 0, passes, shuffle, subseq);
    }
  }

  /** The range `0..passes` is empty for a negative `passes`: the start
      sentence is returned as drawn, nil included. */
  lemma GenerateNoPasses(c: Corpus, passes: int, mode: Mode, pick: int,
                         shuffle: (int, int) -> seq<int>, subseq: (seq<int>, seq<int>) -> bool)
    requires c.count != 0 ==> 0 <= pick < Abs(c.count)
    requires passes < 0
    ensures GenerateSpec(c, passes, mode, pick, shuffle, subseq) == Ok(Start(c, pick))
  {
  }

  /** The run uses each sentence at most once, and accepts at most one
      variant in each of the `passes + 1` passes. */
  lemma GenerateUsesOnce(c: Corpus, passes: int, mode: Mode, pick: int,
                         shuffle: (int, int) -> seq<int>, subseq: (seq<int>, seq<int>) -> bool)
    requires c.count != 0 ==> 0 <= pick < Abs(c.count)
    requires Start(c, pick).Some?
    ensures var t := Start(c, pick).value;
      var r := Run(c, mode, GenState(t, [pick], [t], 0), 0, passes, shuffle, subseq);
      r.Ok? && r.value.Some? ==>
        && NoDup(r.value.value.used)
        && Grows([pick], r.value.value.used)
        && |r.value.value.used| <= 1 + (if passes < 0 then 0 else passes + 1)
  {
    var t := Start(c, pick).value;
    RunSpec(c, mode, GenState(t, [pick], [t], 0), 0, passes, shuffle, subseq);
  }
}
