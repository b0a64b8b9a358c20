/** What a scan has to report, defined by naive search. */
module Occurrences {

  datatype Pattern = Pattern(literal: string, replacement: string, ruleId: string)

  /** What a trie node reports: the matched length and the pattern's payload. */
  datatype Output = Output(length: nat, replacement: string, ruleId: string)

  datatype Hit = Hit(start: nat, end: nat, replacement: string, ruleId: string)

  /** Outputs of the patterns spelled exactly `w`, in registration order. */
  function Own(patterns: seq<Pattern>, w: string): seq<Output> {
    if patterns == [] then []
    else
      var last := patterns[|patterns| - 1];
      Own(patterns[..|patterns| - 1], w)
      + if last.literal == w then [Output(|w|, last.replacement, last.ruleId)] else []
  }

  /** Outputs of the patterns spelled like some non-empty suffix of `w`, longest suffix first. */
  function SuffixOutputs(patterns: seq<Pattern>, w: string): (r: seq<Output>)
    ensures forall o :: o in r ==> o.length <= |w|
  {
    if w == "" then [] else
      OwnLengths(patterns, w);
      Own(patterns, w) + SuffixOutputs(patterns, w[1..])
  }

  lemma OwnLengths(patterns: seq<Pattern>, w: string)
    ensures forall o :: o in Own(patterns, w) ==> o.length == |w|
  {
  }

  function HitsEndingAt(outputs: seq<Output>, end: nat): seq<Hit>
    requires forall o :: o in outputs ==> o.length <= end
  {
    seq(|outputs|, i requires 0 <= i < |outputs| =>
      assert outputs[i] in outputs;
      Hit(end - outputs[i].length, end, outputs[i].replacement, outputs[i].ruleId))
  }

  /** Every occurrence of every pattern: by end offset, then longest first, then in
      registration order. No automaton is involved. */
  function AllHits(patterns: seq<Pattern>, text: string): seq<Hit> {
    if text == "" then []
    else AllHits(patterns, text[..|text| - 1]) + HitsEndingAt(SuffixOutputs(patterns, text), |text|)
  }

  // ---------- Every occurrence once per pattern, and nothing else ----------

  /** Pattern `p` occurs at hit `h`'s span of `text` and carries its payload. */
  predicate Produces(p: Pattern, text: string, h: Hit) {
    && h.start < h.end <= |text| && text[h.start..h.end] == p.literal
    && h.replacement == p.replacement && h.ruleId == p.ruleId
  }

  /** How many of the patterns, counted by position in the list, produce `h`. */
  function Producers(patterns: seq<Pattern>, text: string, h: Hit): nat {
    if patterns == [] then 0
    else
      Producers(patterns[..|patterns| - 1], text, h)
      + if Produces(patterns[|patterns| - 1], text, h) then 1 else 0
  }

  /** The naive hit list holds each hit exactly as often as patterns produce it. */
  lemma {:induction false} HitMultiplicity(patterns: seq<Pattern>, text: string, h: Hit)
    ensures multiset(AllHits(patterns, text))[h] == Producers(patterns, text, h)
  {
    if text == "" {
      NoProducers(patterns, text, h);
    } else {
      var before := text[..|text| - 1];
      HitMultiplicity(patterns, before, h);
      LastHits(patterns, text, h);
      if h.end == |text| {
        NoProducers(patterns, before, h);
      } else {
        ProducersOfPrefix(patterns, text, h);
      }
    }
  }

  lemma LastHits(patterns: seq<Pattern>, text: string, h: Hit)
    ensures multiset(HitsEndingAt(SuffixOutputs(patterns, text), |text|))[h]
         == if h.end == |text| then Producers(patterns, text, h) else 0
  {
    hide SuffixOutputs, Own, Producers;
    var n := |text|;
    EndingCount(SuffixOutputs(patterns, text), n, h);
    if h.end == n && h.start <= n {
      SuffixCount(patterns, text, Output(n - h.start, h.replacement, h.ruleId));
      if h.start < n {
        assert text[h.start..] == text[h.start..h.end];
        OwnCount(patterns, text, h);
      } else {
        NoProducers(patterns, text, h);
      }
    } else if h.end == n {
      NoProducers(patterns, text, h);
    }
  }

  lemma NoProducers(patterns: seq<Pattern>, text: string, h: Hit)
    requires h.end > |text| || h.start >= h.end
    ensures Producers(patterns, text, h) == 0
  {
  }

  lemma ProducersOfPrefix(patterns: seq<Pattern>, text: string, h: Hit)
    requires text != "" && h.end != |text|
    ensures Producers(patterns, text, h) == Producers(patterns, text[..|text| - 1], h)
  {
    if patterns != [] {
      ProducersOfPrefix(patterns[..|patterns| - 1], text, h);
      if h.start < h.end < |text| {
        assert text[..|text| - 1][h.start..h.end] == text[h.start..h.end];
      }
    }
  }

  lemma OwnCount(patterns: seq<Pattern>, text: string, h: Hit)
    requires h.start < h.end <= |text|
    ensures multiset(Own(patterns, text[h.start..h.end]))[Output(h.end - h.start, h.replacement, h.ruleId)]
         == Producers(patterns, text, h)
  {
    if patterns != [] {
      OwnCount(patterns[..|patterns| - 1], text, h);
    }
  }

  lemma {:induction false} SuffixCount(patterns: seq<Pattern>, w: string, o: Output)
    ensures multiset(SuffixOutputs(patterns, w))[o]
         == if 0 < o.length <= |w| then multiset(Own(patterns, w[|w| - o.length..]))[o] else 0
  {
    hide Own;
    if w != "" {
      OwnLengths(patterns, w);
      assert o.length != |w| ==> o !in Own(patterns, w);
      SuffixCount(patterns, w[1..], o);
      if o.length == |w| {
        assert w[|w| - o.length..] == w;
      } else if 0 < o.length < |w| {
        assert w[1..][|w[1..]| - o.length..] == w[|w| - o.length..];
      }
    }
  }

  lemma SnocCount<T>(front: seq<T>, last: T, x: T)
    ensures multiset(front + [last])[x] == multiset(front)[x] + if x == last then 1 else 0
  {
  }

  lemma HitsEndingAtSnoc(front: seq<Output>, last: Output, end: nat)
    requires forall o :: o in front + [last] ==> o.length <= end
    ensures last.length <= end && forall o :: o in front ==> o.length <= end
    ensures HitsEndingAt(front + [last], end)
         == HitsEndingAt(front, end) + [Hit(end - last.length, end, last.replacement, last.ruleId)]
  {
    assert last in front + [last];
    forall o | o in front ensures o.length <= end {
      assert o in front + [last];
    }
  }

  lemma {:induction false} EndingCount(outputs: seq<Output>, end: nat, h: Hit)
    requires forall o :: o in outputs ==> o.length <= end
    ensures multiset(HitsEndingAt(outputs, end))[h]
         == if h.end == end && h.start <= end
            then multiset(outputs)[Output(end - h.start, h.replacement, h.ruleId)] else 0
  {
    if outputs != [] {
      hide HitsEndingAt;
      var front, last := outputs[..|outputs| - 1], outputs[|outputs| - 1];
      assert outputs == front + [last];
      HitsEndingAtSnoc(front, last, end);
      EndingCount(front, end, h);
      SnocCount(HitsEndingAt(front, end), Hit(end - last.length, end, last.replacement, last.ruleId), h);
      if h.end == end && h.start <= end {
        SnocCount(front, last, Output(end - h.start, h.replacement, h.ruleId));
      }
    } else {
      assert HitsEndingAt(outputs, end) == [];
    }
  }

  lemma HitIffProduced(patterns: seq<Pattern>, text: string, h: Hit)
    ensures h in AllHits(patterns, text) <==> exists p :: p in patterns && Produces(p, text, h)
  {
    HitMultiplicity(patterns, text, h);
    assert h in AllHits(patterns, text) <==> multiset(AllHits(patterns, text))[h] > 0;
    SomeProducer(patterns, text, h);
  }

  lemma SomeProducer(patterns: seq<Pattern>, text: string, h: Hit)
    ensures Producers(patterns, text, h) > 0 <==> exists p :: p in patterns && Produces(p, text, h)
  {
    if patterns != [] {
      SomeProducer(patterns[..|patterns| - 1], text, h);
      assert patterns == patterns[..|patterns| - 1] + [patterns[|patterns| - 1]];
    }
  }
}
