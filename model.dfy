/** `Model`: interning tokens as tikis, sorting corpus lines into
    statements and mentions, and the scans that pick the sentences a
    response is generated from.

    The natural-language helpers the model calls (sentence splitting,
    tokenizing, normalizing, lower-casing, the stopword list, the
    subsequence test) are parameters. */
module EbooksModel {
  import opened Store

  // ---------------------------------------------------------------------
  // tokens and tikis

  /** `tokens` lists each token once, and `tikis` maps each token to its
      index there: the two are mutual inverses. */
  ghost predicate Bijection(tokens: seq<string>, tikis: map<string, int>)
  {
    && (forall t :: t in tikis ==> 0 <= tikis[t] < |tokens| && tokens[tikis[t]] == t)
    && (forall k :: 0 <= k < |tokens| ==> tokens[k] in tikis && tikis[tokens[k]] == k)
  }

  /** Under the bijection no token is listed twice. */
  lemma BijectionIsInjective(tokens: seq<string>, tikis: map<string, int>)
    requires Bijection(tokens, tikis)
    ensures forall a, b :: 0 <= a < b < |tokens| ==> tokens[a] != tokens[b]
  {
    forall a, b | 0 <= a < b < |tokens| ensures tokens[a] != tokens[b] {
      assert tikis[tokens[a]] == a && tikis[tokens[b]] == b;
    }
  }

  /** Appending a new token, and mapping it to its index, keeps the
      bijection. */
  lemma InternKeepsBijection(tokens: seq<string>, tikis: map<string, int>, token: string)
    requires Bijection(tokens, tikis) && token !in tikis
    ensures Bijection(tokens + [token], tikis[token := |tokens|])
  {
    var ts, m := tokens + [token], tikis[token := |tokens|];
    forall k | 0 <= k < |ts| ensures ts[k] in m && m[ts[k]] == k {
      if k < |tokens| {
        assert ts[k] == tokens[k] && tokens[k] in tikis;
      }
    }
  }

  /** `words` spelled with tikis: `ts[k]` is the index of `words[k]`. */
  ghost predicate Spells(tokens: seq<string>, ts: seq<int>, words: seq<string>)
  {
    |ts| == |words| && forall k :: 0 <= k < |ts| ==> 0 <= ts[k] < |tokens| && tokens[ts[k]] == words[k]
  }

  lemma SpellsGrows(tokens: seq<string>, longer: seq<string>, ts: seq<int>, words: seq<string>)
    requires Spells(tokens, ts, words)
    requires |tokens| <= |longer| && longer[..|tokens|] == tokens
    ensures Spells(longer, ts, words)
  {
    forall k | 0 <= k < |ts| ensures longer[ts[k]] == words[k] {
      assert longer[ts[k]] == longer[..|tokens|][ts[k]];
    }
  }

  // ---------------------------------------------------------------------
  // the token filter

  /** Ruby's `String#include?`. */
  predicate Contains(s: string, sub: string)
  {
    exists i :: 0 <= i <= |s| - |sub| && SubAt(s, sub, i)
  }

  predicate SubAt(s: string, sub: string, i: int)
  {
    0 <= i && i + |sub| <= |s| && s[i..i + |sub|] == sub
  }

  /** The tokens `mass_tikify` keeps: no user names, no URLs. */
  function KeepTokens(ts: seq<string>): (r: seq<string>)
    ensures forall t :: t in r <==> t in ts && !Contains(t, "@") && !Contains(t, "http")
    ensures |r| <= |ts|
    decreases |ts|
  {
    if ts == [] then []
    else (if Contains(ts[0], "@") || Contains(ts[0], "http") then [] else [ts[0]]) + KeepTokens(ts[1..])
  }

  /** The kept tokens of each sentence, one sentence after another: the
      order `mass_tikify` interns them in. */
  function KeptAll(pieces: seq<seq<string>>): seq<string>
    decreases |pieces|
  {
    if pieces == [] then [] else KeptAll(pieces[..|pieces| - 1]) + KeepTokens(pieces[|pieces| - 1])
  }

  lemma KeptAllSnoc(pieces: seq<seq<string>>, p: seq<string>)
    ensures KeptAll(pieces + [p]) == KeptAll(pieces) + KeepTokens(p)
  {
    assert (pieces + [p])[..|pieces|] == pieces;
  }

  /** The token list after interning `words` in turn: each word not listed
      yet is appended, in order of first occurrence. */
  function Intern(tokens: seq<string>, words: seq<string>): seq<string>
    decreases |words|
  {
    if words == [] then tokens
    else
      var r := Intern(tokens, words[..|words| - 1]);
      if words[|words| - 1] in r then r else r + [words[|words| - 1]]
  }

  /** Interning keeps the old list as a prefix, lists every word, and adds
      only words not listed before, each once. */
  lemma {:induction false} InternGrows(tokens: seq<string>, words: seq<string>)
    ensures var r := Intern(tokens, words);
      && |tokens| <= |r| && r[..|tokens|] == tokens
      && (forall t :: t in r <==> t in tokens || t in words)
      && (forall k :: |tokens| <= k < |r| ==> r[k] in words && r[k] !in tokens)
      && (forall a, b :: |tokens| <= a < b < |r| ==> r[a] != r[b])
    decreases |words|
  {
    if words != [] {
      var init, w := words[..|words| - 1], words[|words| - 1];
      InternGrows(tokens, init);
      assert words == init + [w];
      var p := Intern(tokens, init);
      if w !in p {
        var r := p + [w];
        assert r[..|p|] == p;
        assert r[..|tokens|] == p[..|tokens|];
        forall k | |tokens| <= k < |r| ensures r[k] in words && r[k] !in tokens {
          if k < |p| { assert r[k] == p[k]; }
        }
        forall a, b | |tokens| <= a < b < |r| ensures r[a] != r[b] {
          if b == |p| { assert r[a] == p[a]; }
        }
      }
    }
  }

  /** Interning two runs of words is interning the first and then the
      second. */
  lemma {:induction false} InternConcat(tokens: seq<string>, a: seq<string>, b: seq<string>)
    ensures Intern(tokens, a + b) == Intern(Intern(tokens, a), b)
    decreases |b|
  {
    if b == [] {
      assert a + b == a;
    } else {
      var init := b[..|b| - 1];
      assert (a + b)[..|a + b| - 1] == a + init;
      assert (a + b)[|a + b| - 1] == b[|b| - 1];
      InternConcat(tokens, a, init);
    }
  }

  lemma InternSnoc(tokens: seq<string>, words: seq<string>, w: string)
    ensures var r := Intern(tokens, words);
      Intern(tokens, words + [w]) == if w in r then r else r + [w]
  {
    assert (words + [w])[..|words|] == words;
  }

  /** Under the bijection, a token has a tiki exactly when it is listed. */
  lemma InternedIn(tokens: seq<string>, tikis: map<string, int>, t: string)
    requires Bijection(tokens, tikis)
    ensures t in tikis <==> t in tokens
  {
    if t in tokens {
      var k :| 0 <= k < |tokens| && tokens[k] == t;
      assert tokens[k] in tikis;
    }
  }

  // ---------------------------------------------------------------------
  // sorting corpus lines

  predicate IsSpace(c: char)
  {
    c == ' ' || c == '\t' || c == '\n' || c == '\r' || c as int == 11 || c as int == 12
  }

  /** A line that starts with a mention, or has one after white space
      (`l[0] == '@'` or `l =~ /\s@/`). */
  predicate MentionLike(l: string)
  {
    (|l| > 0 && l[0] == '@') || exists i :: 0 <= i < |l| - 1 && IsSpace(l[i]) && l[i + 1] == '@'
  }

  datatype Kind = Dropped | Mention | Statement

  /** Comments and soft retweets are dropped; the rest are mentions or
      statements. */
  function KindOf(l: string): Kind
  {
    if (|l| > 0 && l[0] == '#') || Contains(l, "RT") || Contains(l, "MT") then Dropped
    else if MentionLike(l) then Mention
    else Statement
  }

  /** The lines of kind `k`, in input order. */
  function Pick(lines: seq<string>, k: Kind): seq<string>
    decreases |lines|
  {
    if lines == [] then []
    else Pick(lines[..|lines| - 1], k) + (if KindOf(lines[|lines| - 1]) == k then [lines[|lines| - 1]] else [])
  }

  function Normalized(normalize: string -> string, xs: seq<string>): (r: seq<string>)
    ensures |r| == |xs|
    ensures forall k :: 0 <= k < |xs| ==> r[k] == normalize(xs[k])
  {
    seq(|xs|, k requires 0 <= k < |xs| => normalize(xs[k]))
  }

  lemma {:induction false} PickSnoc(lines: seq<string>, l: string, k: Kind)
    ensures Pick(lines + [l], k) == Pick(lines, k) + (if KindOf(l) == k then [l] else [])
  {
    assert (lines + [l])[..|lines|] == lines;
  }

  /** Every line lands in exactly one of the three lists. */
  lemma {:induction false} PickPartitions(lines: seq<string>)
    ensures multiset(Pick(lines, Dropped)) + multiset(Pick(lines, Mention)) + multiset(Pick(lines, Statement)) == multiset(lines)
    ensures |Pick(lines, Dropped)| + |Pick(lines, Mention)| + |Pick(lines, Statement)| == |lines|
    decreases |lines|
  {
    if lines != [] {
      var init, last := lines[..|lines| - 1], lines[|lines| - 1];
      PickPartitions(init);
      assert lines == init + [last];
      PickSnoc(init, last, Dropped);
      PickSnoc(init, last, Mention);
      PickSnoc(init, last, Statement);
    }
  }

  /** Each list holds exactly the lines of its kind. */
  lemma {:induction false} PickMembers(lines: seq<string>, k: Kind, l: string)
    ensures l in Pick(lines, k) <==> l in lines && KindOf(l) == k
    decreases |lines|
  {
    if lines != [] {
      var init, last := lines[..|lines| - 1], lines[|lines| - 1];
      PickMembers(init, k, l);
      assert lines == init + [last];
      PickSnoc(init, last, k);
    }
  }

  function Join(xs: seq<string>, sep: string): string
    decreases |xs|
  {
    if xs == [] then "" else if |xs| == 1 then xs[0] else xs[0] + sep + Join(xs[1..], sep)
  }

  // ---------------------------------------------------------------------
  // the verbatim test

  /** `find_index { |s| s.length > 1 && subseq?(s, tikis) }`, from `i`. */
  function FindFrom(xs: seq<seq<int>>, tikis: seq<int>, subseq: (seq<int>, seq<int>) -> bool, i: int): (r: Option<int>)
    requires 0 <= i <= |xs|
    ensures r.Some? ==> i <= r.value < |xs| && |xs[r.value]| > 1 && subseq(xs[r.value], tikis)
    ensures r.Some? ==> forall k :: i <= k < r.value ==> !(|xs[k]| > 1 && subseq(xs[k], tikis))
    ensures r.None? ==> forall k :: i <= k < |xs| ==> !(|xs[k]| > 1 && subseq(xs[k], tikis))
    decreases |xs| - i
  {
    if i == |xs| then None
    else if |xs[i]| > 1 && subseq(xs[i], tikis) then Some(i)
    else FindFrom(xs, tikis, subseq, i + 1)
  }

  // ---------------------------------------------------------------------
  // relevance

  /** Every tiki of `sent` indexes a list of `n` tokens. */
  ghost predicate InRange(sent: seq<int>, n: int)
  {
    forall k :: 0 <= k < |sent| ==> 0 <= sent[k] < n
  }

  /** Every tiki of every sentence indexes `tokens`. */
  ghost predicate Indexes(sents: seq<seq<int>>, n: int)
  {
    forall s :: s in sents ==> InRange(s, n)
  }

  /** `sent.map { |tiki| @tokens[tiki].downcase }.include?(token)`. */
  predicate OccursIn(tokens: seq<string>, downcase: string -> string, sent: seq<int>, token: string)
    requires InRange(sent, |tokens|)
  {
    exists k :: 0 <= k < |sent| && downcase(tokens[sent[k]]) == token
  }

  /** How often the scan appends `sent` to `slightly_relevant`: once per
      input token found in it. */
  function SlightCount(tokens: seq<string>, downcase: string -> string, sent: seq<int>, toks: seq<string>): nat
    requires InRange(sent, |tokens|)
    decreases |toks|
  {
    if toks == [] then 0
    else SlightCount(tokens, downcase, sent, toks[..|toks| - 1])
         + (if OccursIn(tokens, downcase, sent, toks[|toks| - 1]) then 1 else 0)
  }

  /** How often it appends `sent` to `relevant`: the same, stopwords
      excepted. */
  function RelCount(tokens: seq<string>, downcase: string -> string, stopword: string -> bool,
                    sent: seq<int>, toks: seq<string>): nat
    requires InRange(sent, |tokens|)
    decreases |toks|
  {
    if toks == [] then 0
    else RelCount(tokens, downcase, stopword, sent, toks[..|toks| - 1])
         + (if OccursIn(tokens, downcase, sent, toks[|toks| - 1]) && !stopword(toks[|toks| - 1]) then 1 else 0)
  }

  function Repeat(s: seq<int>, n: nat): (r: seq<seq<int>>)
    ensures |r| == n && forall x :: x in r ==> x == s
  {
    seq(n, _ => s)
  }

  function Slightly(tokens: seq<string>, downcase: string -> string, sents: seq<seq<int>>, toks: seq<string>): seq<seq<int>>
    requires Indexes(sents, |tokens|)
    decreases |sents|
  {
    if sents == [] then []
    else
      var last := sents[|sents| - 1];
      Slightly(tokens, downcase, sents[..|sents| - 1], toks) + Repeat(last, SlightCount(tokens, downcase, last, toks))
  }

  function Relevant(tokens: seq<string>, downcase: string -> string, stopword: string -> bool,
                    sents: seq<seq<int>>, toks: seq<string>): seq<seq<int>>
    requires Indexes(sents, |tokens|)
    decreases |sents|
  {
    if sents == [] then []
    else
      var last := sents[|sents| - 1];
      Relevant(tokens, downcase, stopword, sents[..|sents| - 1], toks) + Repeat(last, RelCount(tokens, downcase, stopword, last, toks))
  }

  lemma {:induction false} RelCountAtMost(tokens: seq<string>, downcase: string -> string, stopword: string -> bool,
                                          sent: seq<int>, toks: seq<string>)
    requires InRange(sent, |tokens|)
    ensures RelCount(tokens, downcase, stopword, sent, toks) <= SlightCount(tokens, downcase, sent, toks)
    decreases |toks|
  {
    if toks != [] {
      RelCountAtMost(tokens, downcase, stopword, sent, toks[..|toks| - 1]);
    }
  }

  /** `relevant` holds each sentence at most as often as
      `slightly_relevant` does, so it is never the longer of the two. */
  lemma {:induction false} RelevantWithinSlightly(tokens: seq<string>, downcase: string -> string, stopword: string -> bool,
                                                  sents: seq<seq<int>>, toks: seq<string>)
    requires Indexes(sents, |tokens|)
    ensures multiset(Relevant(tokens, downcase, stopword, sents, toks)) <= multiset(Slightly(tokens, downcase, sents, toks))
    ensures |Relevant(tokens, downcase, stopword, sents, toks)| <= |Slightly(tokens, downcase, sents, toks)|
    decreases |sents|
  {
    if sents != [] {
      var init, last := sents[..|sents| - 1], sents[|sents| - 1];
      RelevantWithinSlightly(tokens, downcase, stopword, init, toks);
      RelCountAtMost(tokens, downcase, stopword, last, toks);
      var r, s := RelCount(tokens, downcase, stopword, last, toks), SlightCount(tokens, downcase, last, toks);
      assert Repeat(last, s) == Repeat(last, r) + Repeat(last, s - r);
    }
  }

  lemma {:induction false} SlightCountPositive(tokens: seq<string>, downcase: string -> string, sent: seq<int>, toks: seq<string>)
    requires InRange(sent, |tokens|)
    ensures SlightCount(tokens, downcase, sent, toks) > 0 <==> exists t :: t in toks && OccursIn(tokens, downcase, sent, t)
    decreases |toks|
  {
    if toks != [] {
      var init, last := toks[..|toks| - 1], toks[|toks| - 1];
      SlightCountPositive(tokens, downcase, sent, init);
      assert toks == init + [last];
    }
  }

  /** A sentence is slightly relevant exactly when some input token is
      among its lower-cased tokens. */
  lemma {:induction false} SlightlyMembers(tokens: seq<string>, downcase: string -> string,
                                           sents: seq<seq<int>>, toks: seq<string>, x: seq<int>)
    requires Indexes(sents, |tokens|)
    ensures x in Slightly(tokens, downcase, sents, toks) <==>
              x in sents && InRange(x, |tokens|) &&
              exists t :: t in toks && OccursIn(tokens, downcase, x, t)
    decreases |sents|
  {
    if sents != [] {
      var init, last := sents[..|sents| - 1], sents[|sents| - 1];
      assert sents == init + [last];
      assert Indexes(init, |tokens|);
      SlightlyMembers(tokens, downcase, init, toks, x);
      SlightCountPositive(tokens, downcase, last, toks);
      var tail := Repeat(last, SlightCount(tokens, downcase, last, toks));
      assert Slightly(tokens, downcase, sents, toks) == Slightly(tokens, downcase, init, toks) + tail;
      if SlightCount(tokens, downcase, last, toks) > 0 {
        assert tail[0] == last;
      }
    }
  }

  // ---------------------------------------------------------------------
  // choosing the response corpus

  /** The first candidate that has at least its threshold of sentences. */
  function FirstFit(cands: seq<(seq<seq<int>>, int)>): Option<seq<seq<int>>>
    decreases |cands|
  {
    if cands == [] then None
    else if |cands[0].0| >= cands[0].1 then Some(cands[0].0)
    else FirstFit(cands[1..])
  }

  const RELEVANT_MIN: int := 30
  const SLIGHTLY_MIN: int := 50

  class Model {
    var tokens: seq<string>
    var tikis: map<string, int>
    var sentences: seq<seq<int>>
    var mentions: seq<seq<int>>

    ghost predicate Valid()
      reads this
    {
      Bijection(tokens, tikis)
    }

    constructor ()
      ensures Valid()
      ensures tokens == [] && tikis == map[]
    {
      tokens := [];
      tikis := map[];
    }

    /** The tiki of `token`, interning it first when it is new. */
    method Tikify(token: string) returns (tiki: int)
      requires Valid()
      modifies this
      ensures Valid()
      ensures 0 <= tiki < |tokens| && tokens[tiki] == token
      ensures old(token in tikis) ==> tokens == old(tokens) && tikis == old(tikis)
      ensures old(token !in tikis) ==> tokens == old(tokens) + [token] && tikis == old(tikis)[token := tiki]
      ensures sentences == old(sentences) && mentions == old(mentions)
    {
      if token in tikis {
        return tikis[token];
      }
      InternKeepsBijection(tokens, tikis, token);
      tokens := tokens + [token];
      tiki := |tokens| - 1;
      tikis := tikis[token := tiki];
    }

    /** `tokens.map { |t| tikify(t) }`: the tikis of `words`, interning
        each new word in turn. */
    method TikifyAll(words: seq<string>) returns (ts: seq<int>)
      requires Valid()
      modifies this
      ensures Valid()
      ensures Spells(tokens, ts, words)
      ensures tokens == Intern(old(tokens), words)
      ensures |old(tokens)| <= |tokens| && tokens[..|old(tokens)|] == old(tokens)
      ensures sentences == old(sentences) && mentions == old(mentions)
    {
      ts := [];
      var j := 0;
      while j < |words|
        invariant 0 <= j <= |words| && |ts| == j
        invariant Valid()
        invariant Spells(tokens, ts, words[..j])
        invariant tokens == Intern(old(tokens), words[..j])
        invariant sentences == old(sentences) && mentions == old(mentions)
      {
        ghost var before := tokens;
        InternedIn(tokens, tikis, words[j]);
        assert words[..j + 1] == words[..j] + [words[j]];
        InternSnoc(old(tokens), words[..j], words[j]);
        var tiki := Tikify(words[j]);
        SpellsGrows(before, tokens, ts, words[..j]);
        ts := ts + [tiki];
        j := j + 1;
      }
      assert words[..j] == words;
      InternGrows(old(tokens), words);
    }

    /** `mass_tikify` over the tokenized sentences of a text: one tiki list
        per sentence, spelling the tokens it keeps, with the kept tokens
        not seen before appended to `tokens` in order of first
        occurrence. */
    method MassTikify(pieces: seq<seq<string>>) returns (out: seq<seq<int>>)
      requires Valid()
      modifies this
      ensures Valid()
      ensures |out| == |pieces|
      ensures forall i :: 0 <= i < |out| ==> Spells(tokens, out[i], KeepTokens(pieces[i]))
      ensures tokens == Intern(old(tokens), KeptAll(pieces))
      ensures |old(tokens)| <= |tokens| && tokens[..|old(tokens)|] == old(tokens)
      ensures forall k :: |old(tokens)| <= k < |tokens| ==> tokens[k] in KeptAll(pieces) && tokens[k] !in old(tokens)
      ensures sentences == old(sentences) && mentions == old(mentions)
    {
      out := [];
      var i := 0;
      while i < |pieces|
        invariant 0 <= i <= |pieces| && |out| == i
        invariant Valid()
        invariant forall k :: 0 <= k < i ==> Spells(tokens, out[k], KeepTokens(pieces[k]))
        invariant tokens == Intern(old(tokens), KeptAll(pieces[..i]))
        invariant sentences == old(sentences) && mentions == old(mentions)
      {
        var kept := KeepTokens(pieces[i]);
        assert pieces[..i + 1] == pieces[..i] + [pieces[i]];
        KeptAllSnoc(pieces[..i], pieces[i]);
        InternConcat(old(tokens), KeptAll(pieces[..i]), kept);
        ghost var before := tokens;
        var ts := TikifyAll(kept);
        ghost var prev := out;
        out := out + [ts];
        forall k | 0 <= k <= i ensures Spells(tokens, out[k], KeepTokens(pieces[k])) {
          if k < i {
            assert out[k] == prev[k];
            SpellsGrows(before, tokens, prev[k], KeepTokens(pieces[k]));
          } else {
            assert out[k] == ts;
          }
        }
        i := i + 1;
      }
      assert pieces[..i] == pieces;
      InternGrows(old(tokens), KeptAll(pieces));
    }

    /** The loop of `consume_lines` that routes each line. */
    method SortLines(lines: seq<string>, normalize: string -> string) returns (statements: seq<string>, mentioned: seq<string>)
      ensures statements == Normalized(normalize, Pick(lines, Statement))
      ensures mentioned == Normalized(normalize, Pick(lines, Mention))
    {
      statements, mentioned := [], [];
      var i := 0;
      while i < |lines|
        invariant 0 <= i <= |lines|
        invariant statements == Normalized(normalize, Pick(lines[..i], Statement))
        invariant mentioned == Normalized(normalize, Pick(lines[..i], Mention))
      {
        var l := lines[i];
        assert lines[..i + 1][..i] == lines[..i];
        if KindOf(l) == Mention {
          mentioned := mentioned + [normalize(l)];
        } else if KindOf(l) == Statement {
          statements := statements + [normalize(l)];
        }
        i := i + 1;
      }
      assert lines[..i] == lines;
    }

    /** `consume_lines`: the statements become the sentences and the
        mentions the mentions, each joined into one text, split into
        sentences and tokens by `split`, and interned. */
    method ConsumeLines(lines: seq<string>, normalize: string -> string, split: string -> seq<seq<string>>)
      requires Valid()
      modifies this
      ensures Valid()
      ensures var st := Normalized(normalize, Pick(lines, Statement));
        && |sentences| == |split(Join(st, "\n"))|
        && forall i :: 0 <= i < |sentences| ==> Spells(tokens, sentences[i], KeepTokens(split(Join(st, "\n"))[i]))
      ensures var me := Normalized(normalize, Pick(lines, Mention));
        && |mentions| == |split(Join(me, "\n"))|
        && forall i :: 0 <= i < |mentions| ==> Spells(tokens, mentions[i], KeepTokens(split(Join(me, "\n"))[i]))
      ensures var st, me := Normalized(normalize, Pick(lines, Statement)), Normalized(normalize, Pick(lines, Mention));
        tokens == Intern(old(tokens), KeptAll(split(Join(st, "\n"))) + KeptAll(split(Join(me, "\n"))))
      ensures |old(tokens)| <= |tokens| && tokens[..|old(tokens)|] == old(tokens)
      ensures var st, me := Normalized(normalize, Pick(lines, Statement)), Normalized(normalize, Pick(lines, Mention));
        forall k :: |old(tokens)| <= k < |tokens| ==>
          tokens[k] !in old(tokens) && tokens[k] in KeptAll(split(Join(st, "\n"))) + KeptAll(split(Join(me, "\n")))
    {
      var st, me := SortLines(lines, normalize);
      var text, mentionText := Join(st, "\n"), Join(me, "\n");
      ghost var mid := tokens;
      var s := MassTikify(split(text));
      sentences := s;
      ghost var mid2 := tokens;
      var m := MassTikify(split(mentionText));
      mentions := m;
      forall i | 0 <= i < |sentences| ensures Spells(tokens, sentences[i], KeepTokens(split(text)[i])) {
        SpellsGrows(mid2, tokens, sentences[i], KeepTokens(split(text)[i]));
      }
      InternConcat(old(tokens), KeptAll(split(text)), KeptAll(split(mentionText)));
      InternGrows(old(tokens), KeptAll(split(text)) + KeptAll(split(mentionText)));
    }

    /** `verbatim?`: some sentence, or else some mention, longer than one
        tiki is a subsequence of `tikis`. */
    function Verbatim(tikis: seq<int>, subseq: (seq<int>, seq<int>) -> bool): (r: bool)
      reads this
      ensures r <==> (exists s :: s in sentences && |s| > 1 && subseq(s, tikis))
                     || (exists s :: s in mentions && |s| > 1 && subseq(s, tikis))
    {
      FindFrom(sentences, tikis, subseq, 0).Some? || FindFrom(mentions, tikis, subseq, 0).Some?
    }

    /** `find_relevant`: the input's tokens lower-cased, and each sentence
        appended once per token it contains, to `relevant` only for a
        token that is not a stopword. */
    method FindRelevant(sents: seq<seq<int>>, input: seq<string>, downcase: string -> string,
                        stopword: string -> bool)
      returns (relevant: seq<seq<int>>, slightly: seq<seq<int>>, tokenized: seq<string>)
      requires Indexes(sents, |tokens|)
      ensures tokenized == Normalized(downcase, input)
      ensures relevant == Relevant(tokens, downcase, stopword, sents, tokenized)
      ensures slightly == Slightly(tokens, downcase, sents, tokenized)
    {
      tokenized := Normalized(downcase, input);
      relevant, slightly := [], [];
      var i := 0;
      while i < |sents|
        invariant 0 <= i <= |sents|
        invariant relevant == Relevant(tokens, downcase, stopword, sents[..i], tokenized)
        invariant slightly == Slightly(tokens, downcase, sents[..i], tokenized)
      {
        var sent := sents[i];
        assert sents[..i + 1][..i] == sents[..i];
        var j := 0;
        while j < |tokenized|
          invariant 0 <= j <= |tokenized|
          invariant relevant == Relevant(tokens, downcase, stopword, sents[..i], tokenized)
                                + Repeat(sent, RelCount(tokens, downcase, stopword, sent, tokenized[..j]))
          invariant slightly == Slightly(tokens, downcase, sents[..i], tokenized)
                                + Repeat(sent, SlightCount(tokens, downcase, sent, tokenized[..j]))
        {
          var token := tokenized[j];
          assert tokenized[..j + 1][..j] == tokenized[..j];
          if OccursIn(tokens, downcase, sent, token) {
            if !stopword(token) {
              relevant := relevant + [sent];
            }
            slightly := slightly + [sent];
          }
          j := j + 1;
        }
        assert tokenized[..j] == tokenized;
        i := i + 1;
      }
      assert sents[..i] == sents;
    }

    /** The corpus `make_response` builds its generator from: the
        relevant sentences if there are at least 30, else the slightly
        relevant ones if there are at least 50, else, once, the same
        choice over all sentences instead of the mentions, and else all
        sentences. `fromMentions` says `sents` is the mention list. */
    function ResponseCorpus(sents: seq<seq<int>>, fromMentions: bool, input: seq<string>,
                            downcase: string -> string, stopword: string -> bool): seq<seq<int>>
      reads this
      requires Indexes(sents, |tokens|) && Indexes(sentences, |tokens|)
      decreases if fromMentions then 1 else 0
    {
      var toks := Normalized(downcase, input);
      var relevant := Relevant(tokens, downcase, stopword, sents, toks);
      var slightly := Slightly(tokens, downcase, sents, toks);
      if |relevant| >= RELEVANT_MIN then relevant
      else if |slightly| >= SLIGHTLY_MIN then slightly
      else if fromMentions then ResponseCorpus(sentences, false, input, downcase, stopword)
      else sentences
    }

    /** The candidates in order of preference, each with its threshold. */
    ghost function Candidates(sents: seq<seq<int>>, fromMentions: bool, input: seq<string>,
                              downcase: string -> string, stopword: string -> bool): seq<(seq<seq<int>>, int)>
      reads this
      requires Indexes(sents, |tokens|) && Indexes(sentences, |tokens|)
    {
      var toks := Normalized(downcase, input);
      [(Relevant(tokens, downcase, stopword, sents, toks), RELEVANT_MIN),
       (Slightly(tokens, downcase, sents, toks), SLIGHTLY_MIN)]
      + (if fromMentions
         then [(Relevant(tokens, downcase, stopword, sentences, toks), RELEVANT_MIN),
               (Slightly(tokens, downcase, sentences, toks), SLIGHTLY_MIN)]
         else [])
      + [(sentences, 0)]
    }

    /** The response corpus is the first candidate that meets its
        threshold; the last, all sentences, always does. */
    lemma ResponsePrefersRelevant(sents: seq<seq<int>>, fromMentions: bool, input: seq<string>,
                                  downcase: string -> string, stopword: string -> bool)
      requires Indexes(sents, |tokens|) && Indexes(sentences, |tokens|)
      ensures FirstFit(Candidates(sents, fromMentions, input, downcase, stopword))
              == Some(ResponseCorpus(sents, fromMentions, input, downcase, stopword))
      decreases if fromMentions then 1 else 0
    {
      var toks := Normalized(downcase, input);
      var cs := Candidates(sents, fromMentions, input, downcase, stopword);
      var r := ResponseCorpus(sents, fromMentions, input, downcase, stopword);
      var tail := cs[2..];
      assert cs == cs[..2] + tail;
      assert FirstFit(cs) == (if |cs[0].0| >= cs[0].1 then Some(cs[0].0) else FirstFit(cs[1..]));
      assert cs[1..][1..] == tail;
      assert FirstFit(cs[1..]) == (if |cs[1].0| >= cs[1].1 then Some(cs[1].0) else FirstFit(tail));
      if fromMentions {
        var cs2 := Candidates(sentences, false, input, downcase, stopword);
        assert tail == [cs[2], cs[3]] + [(sentences, 0)];
        assert cs2 == [cs[2], cs[3]] + [(sentences, 0)];
        ResponsePrefersRelevant(sentences, false, input, downcase, stopword);
      } else {
        assert tail == [(sentences, 0)];
      }
    }
  }
}
