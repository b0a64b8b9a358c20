/** The verdict of the relationship-graph attack: what each subject is matched to, through
    relationship paths or else through shared clues, and the counts the report carries. */
module ContextualAudit {
  import opened Results
  import opened ContextualGraph

  /** A subject or an auxiliary identity as the input lists it, and as the audit keeps it. */
  datatype Row = Row(id: string, clues: seq<Clue>)

  datatype Profile = Profile(id: string, clues: set<Clue>)

  datatype Verdict = BlockRelease | ClearRelease

  datatype Report = Report(verdict: Verdict, inferred: nat, ambiguous: nat, clear: nat,
                           twoHopPaths: nat, maximumShared: nat, relationshipPaths: nat, maximumHops: nat)

  // ---------- Reading the rows ----------

  predicate RowOk(r: Row) {
    r.id != "" && r.clues != [] && forall c :: c in r.clues ==> c.0 != "" && c.1 != ""
  }

  ghost predicate RowsOk(rows: seq<Row>) {
    && rows != []
    && (forall r :: r in rows ==> r.id != "" && r.clues != [] && forall c :: c in r.clues ==> c.0 != "" && c.1 != "")
    && (forall i, j :: 0 <= i < j < |rows| ==> rows[i].id != rows[j].id)
  }

  function ClueSet(clues: seq<Clue>): set<Clue> {
    set c | c in clues
  }

  ghost predicate DistinctIds(people: seq<Profile>) {
    forall i, j :: 0 <= i < j < |people| ==> people[i].id != people[j].id
  }

  function Ids(people: seq<Profile>): set<string> {
    set p | p in people :: p.id
  }

  /** The rows are refused exactly when the list is empty, an identifier is empty or repeated,
      or a clue list or a clue part is empty; otherwise every row is kept in place. */
  method ReadRows(rows: seq<Row>) returns (r: Result<seq<Profile>, GraphError>)
    ensures r.Ok? <==> RowsOk(rows)
    ensures r.Err? ==> r.error == InvalidRows
    ensures r.Ok? ==> |r.value| == |rows| && DistinctIds(r.value)
    ensures r.Ok? ==> forall i :: 0 <= i < |rows| ==> r.value[i] == Profile(rows[i].id, ClueSet(rows[i].clues))
  {
    if rows == [] {
      return Err(InvalidRows);
    }
    var people: seq<Profile> := [];
    var seen: set<string> := {};
    for k := 0 to |rows|
      invariant |people| == k
      invariant forall i :: 0 <= i < k ==> people[i] == Profile(rows[i].id, ClueSet(rows[i].clues)) && RowOk(rows[i])
      invariant forall i, j :: 0 <= i < j < k ==> rows[i].id != rows[j].id
      invariant forall id :: id in seen <==> exists i :: 0 <= i < k && rows[i].id == id
    {
      assert rows[k] in rows;
      if rows[k].id in seen || !RowOk(rows[k]) {
        return Err(InvalidRows);
      }
      seen := seen + {rows[k].id};
      people := people + [Profile(rows[k].id, ClueSet(rows[k].clues))];
    }
    return Ok(people);
  }

  // ---------- Relationship reachability ----------

  /** The identities a subject reaches along relationship edges. */
  ghost function Linked(e: Relation, subject: string, identities: set<string>): set<string> {
    set i | i in identities && Reachable(e, SubjectNode(subject), IdentityNode(i))
  }

  ghost function Links(e: Relation, subjects: set<string>, identities: set<string>): set<(string, string)> {
    set s, i | s in subjects && i in identities && Reachable(e, SubjectNode(s), IdentityNode(i)) :: (s, i)
  }

  ghost predicate HopsBound(e: Relation, links: set<(string, string)>, hops: nat) {
    && (forall l, n: nat :: l in links && IsDistance(e, SubjectNode(l.0), IdentityNode(l.1), n) ==> n <= hops)
    && (if links == {} then hops == 0 else exists l :: l in links && IsDistance(e, SubjectNode(l.0), IdentityNode(l.1), hops))
  }

  lemma DistanceIsUnique(e: Relation, u: Node, v: Node, m: nat, n: nat)
    requires IsDistance(e, u, v, m) && IsDistance(e, u, v, n)
    ensures m == n
  {
    assert Reaches(e, u, v, m) && Reaches(e, u, v, n);
  }

  lemma {:induction false} PairedSize(subject: string, ids: set<string>)
    ensures |set i | i in ids :: (subject, i)| == |ids|
    decreases ids
  {
    var pairs := set i | i in ids :: (subject, i);
    if ids == {} {
      assert pairs == {};
    } else {
      var i :| i in ids;
      PairedSize(subject, ids - {i});
      assert pairs == (set j | j in ids - {i} :: (subject, j)) + {(subject, i)};
    }
  }

  /** One subject more: its links are new ones, one per identity it reaches. */
  lemma LinksGrow(e: Relation, done: set<string>, subject: string, identities: set<string>)
    requires subject !in done
    ensures var own := set i | i in Linked(e, subject, identities) :: (subject, i);
      && Links(e, done + {subject}, identities) == Links(e, done, identities) + own
      && (Linked(e, subject, identities) == {} ==> own == {})
      && |Links(e, done + {subject}, identities)| == |Links(e, done, identities)| + |Linked(e, subject, identities)|
  {
    hide Reachable;
    var own := set i | i in Linked(e, subject, identities) :: (subject, i);
    PairedSize(subject, Linked(e, subject, identities));
    assert Links(e, done + {subject}, identities) == Links(e, done, identities) + own;
    assert Links(e, done, identities) !! own;
  }

  /** The longest of the given distances. */
  method LongestHop(distances: map<Node, nat>, ids: set<string>, floor: nat) returns (longest: nat)
    requires forall i :: i in ids ==> IdentityNode(i) in distances
    ensures floor <= longest && forall i :: i in ids ==> distances[IdentityNode(i)] <= longest
    ensures longest == floor || exists i :: i in ids && distances[IdentityNode(i)] == longest
  {
    longest := floor;
    var todo := ids;
    while todo != {}
      invariant todo <= ids && floor <= longest
      invariant forall i :: i in ids - todo ==> distances[IdentityNode(i)] <= longest
      invariant longest == floor || exists i :: i in ids && distances[IdentityNode(i)] == longest
    {
      var i :| i in todo;
      todo := todo - {i};
      if longest < distances[IdentityNode(i)] {
        longest := distances[IdentityNode(i)];
      }
    }
  }

  lemma HopsGrow(e: Relation, links: set<(string, string)>, hops: nat, subject: string, ids: set<string>,
                 distances: map<Node, nat>, longest: nat)
    requires HopsBound(e, links, hops) && ids != {} && hops <= longest
    requires forall i :: i in ids ==> IdentityNode(i) in distances
    requires forall i :: i in ids ==> IsDistance(e, SubjectNode(subject), IdentityNode(i), distances[IdentityNode(i)])
    requires forall i :: i in ids ==> distances[IdentityNode(i)] <= longest
    requires longest == hops || exists i :: i in ids && distances[IdentityNode(i)] == longest
    ensures HopsBound(e, links + (set i | i in ids :: (subject, i)), longest)
  {
    hide IsDistance;
    var all := links + (set i | i in ids :: (subject, i));
    forall l, n: nat | l in all && IsDistance(e, SubjectNode(l.0), IdentityNode(l.1), n) ensures n <= longest {
      if l !in links {
        DistanceIsUnique(e, SubjectNode(subject), IdentityNode(l.1), n, distances[IdentityNode(l.1)]);
      }
    }
    if links == {} && longest == hops {
      var i :| i in ids;
      assert distances[IdentityNode(i)] == longest;
    }
    if i :| i in ids && distances[IdentityNode(i)] == longest {
      assert (subject, i) in all;
    }
  }

  /** Which identities each subject reaches, how many such pairs there are, and the longest of
      their shortest paths. */
  method Reachability(adjacency: Adjacency, ghost e: Relation, subjects: set<string>, identities: set<string>)
    returns (reachable: map<string, set<string>>, traversed: nat, maximumHops: nat)
    requires Represents(adjacency, e)
    ensures forall s :: s in reachable <==> s in subjects && Linked(e, s, identities) != {}
    ensures forall s :: s in reachable ==> reachable[s] == Linked(e, s, identities)
    ensures traversed == |Links(e, subjects, identities)|
    ensures HopsBound(e, Links(e, subjects, identities), maximumHops)
  {
    hide IsDistance, Reachable, HopsBound, Represents, Linked, Links;
    reachable, traversed, maximumHops := map[], 0, 0;
    var todo := subjects;
    ghost var done: set<string> := {};
    NoHops(e, identities);
    while todo != {}
      invariant todo <= subjects && done == subjects - todo
      invariant forall s :: s in reachable <==> s in done && Linked(e, s, identities) != {}
      invariant forall s :: s in reachable ==> reachable[s] == Linked(e, s, identities)
      invariant traversed == |Links(e, done, identities)|
      invariant HopsBound(e, Links(e, done, identities), maximumHops)
    {
      var subject :| subject in todo;
      var distances := Search(adjacency, e, SubjectNode(subject));
      var found := set i | i in identities && IdentityNode(i) in distances;
      FoundAreLinked(e, subject, identities, distances);
      LinksGrow(e, done, subject, identities);
      if found != {} {
        var longest := LongestHop(distances, found, maximumHops);
        HopsGrow(e, Links(e, done, identities), maximumHops, subject, found, distances, longest);
        reachable := reachable[subject := found];
        traversed := traversed + |found|;
        maximumHops := longest;
      }
      todo := todo - {subject};
      done := done + {subject};
    }
    assert done == subjects;
  }

  lemma NoHops(e: Relation, identities: set<string>)
    ensures Links(e, {}, identities) == {} && HopsBound(e, {}, 0)
  {
    hide Reachable;
  }

  lemma FoundAreLinked(e: Relation, subject: string, identities: set<string>, distances: map<Node, nat>)
    requires forall v :: v in distances <==> Reachable(e, SubjectNode(subject), v)
    ensures (set i | i in identities && IdentityNode(i) in distances) == Linked(e, subject, identities)
  {
    hide Reachable;
  }

  // ---------- Shared clues ----------

  function Shared(s: Profile, t: Profile): nat {
    |s.clues * t.clues|
  }

  function MaxOf(scores: seq<nat>): (m: nat)
    ensures forall x :: x in scores ==> x <= m
    ensures if scores == [] then m == 0 else m in scores
  {
    if scores == [] then 0
    else
      assert forall x :: x in scores ==> x == scores[0] || x in scores[1..];
      var rest := MaxOf(scores[1..]);
      if |scores| == 1 || rest < scores[0] then scores[0] else rest
  }

  function CountOf(scores: seq<nat>, best: nat): nat {
    if scores == [] then 0 else CountOf(scores[..|scores| - 1], best) + if scores[|scores| - 1] == best then 1 else 0
  }

  /** Every subject -> clue -> identity path of one subject, as (clue, identity). */
  ghost function TwoHops(s: Profile, identities: seq<Profile>): set<(Clue, string)> {
    set t, c | t in identities && c in s.clues && c in t.clues :: (c, t.id)
  }

  ghost function ScoresOf(s: Profile, identities: seq<Profile>): seq<nat> {
    seq(|identities|, i requires 0 <= i < |identities| => Shared(s, identities[i]))
  }

  /** The identities that share exactly `best` clues with the subject. */
  ghost function Sharing(s: Profile, identities: seq<Profile>, best: nat): set<string> {
    set t | t in identities && Shared(s, t) == best :: t.id
  }

  lemma {:induction false} CluePairs(clues: set<Clue>, id: string)
    ensures |set c | c in clues :: (c, id)| == |clues|
    decreases clues
  {
    var pairs := set c | c in clues :: (c, id);
    if clues == {} {
      assert pairs == {};
    } else {
      var c :| c in clues;
      CluePairs(clues - {c}, id);
      assert pairs == (set d | d in clues - {c} :: (d, id)) + {(c, id)};
    }
  }

  lemma OneMoreIdentity(s: Profile, before: seq<Profile>, t: Profile)
    requires DistinctIds(before + [t])
    ensures |TwoHops(s, before + [t])| == |TwoHops(s, before)| + Shared(s, t)
  {
    var own := set c | c in s.clues * t.clues :: (c, t.id);
    CluePairs(s.clues * t.clues, t.id);
    assert TwoHops(s, before + [t]) == TwoHops(s, before) + own;
    FreshId(before, t);
    assert TwoHops(s, before) !! own;
  }

  lemma FreshId(before: seq<Profile>, t: Profile)
    requires DistinctIds(before + [t])
    ensures DistinctIds(before) && forall p :: p in before ==> p.id != t.id
  {
    var all := before + [t];
    forall i, j | 0 <= i < j < |before| ensures before[i].id != before[j].id {
      assert all[i].id != all[j].id;
    }
    forall p | p in before ensures p.id != t.id {
      var i :| 0 <= i < |before| && before[i] == p;
      assert all[i].id != all[|before|].id;
    }
  }

  /** The number of best scores is the number of identities that have it. */
  lemma {:induction false} WinnersAreIdentities(s: Profile, identities: seq<Profile>, best: nat)
    requires DistinctIds(identities)
    ensures CountOf(ScoresOf(s, identities), best) == |Sharing(s, identities, best)|
    decreases |identities|
  {
    if identities == [] {
      assert ScoresOf(s, identities) == [] && Sharing(s, identities, best) == {};
    } else {
      var n := |identities| - 1;
      var before, t := identities[..n], identities[n];
      assert identities == before + [t];
      FreshId(before, t);
      SharingSnoc(s, before, t, best);
      assert ScoresOf(s, identities) == ScoresOf(s, before) + [Shared(s, t)];
      hide ScoresOf, Sharing, Shared, DistinctIds;
      WinnersAreIdentities(s, before, best);
      CountSnoc(ScoresOf(s, before), Shared(s, t), best);
    }
  }

  lemma CountSnoc(scores: seq<nat>, x: nat, best: nat)
    ensures CountOf(scores + [x], best) == CountOf(scores, best) + if x == best then 1 else 0
  {
    assert (scores + [x])[..|scores|] == scores;
  }

  lemma SharingSnoc(s: Profile, before: seq<Profile>, t: Profile, best: nat)
    requires forall p :: p in before ==> p.id != t.id
    ensures |Sharing(s, before + [t], best)| == |Sharing(s, before, best)| + if Shared(s, t) == best then 1 else 0
  {
    hide Shared;
    var all, prior := Sharing(s, before + [t], best), Sharing(s, before, best);
    forall x ensures x in all <==> x in prior || (Shared(s, t) == best && x == t.id) {
      if p :| p in before + [t] && Shared(s, p) == best && p.id == x {
        assert p in before || p == t;
      }
      if p :| p in before && Shared(s, p) == best && p.id == x {
        assert p in before + [t];
      }
      if Shared(s, t) == best && x == t.id {
        assert t in before + [t];
      }
    }
    assert all == if Shared(s, t) == best then prior + {t.id} else prior;
    assert t.id !in prior;
  }

  // ---------- What a subject is matched to ----------

  /** The identities a subject is matched to: those it reaches through relationships, or, when
      there is none, those sharing most clues with it, provided these reach the threshold. */
  ghost function Matched(e: Relation, s: Profile, identities: seq<Profile>, threshold: nat): set<string> {
    var linked := Linked(e, s.id, Ids(identities));
    if linked != {} then linked
    else
      set t | t in identities && threshold <= Shared(s, t)
              && (forall u :: u in identities ==> Shared(s, u) <= Shared(s, t)) :: t.id
  }

  /** A subject is matched to nobody exactly when it reaches no identity and shares too few
      clues with each of them. */
  lemma UnmatchedIff(e: Relation, s: Profile, identities: seq<Profile>, threshold: nat)
    ensures Matched(e, s, identities, threshold) == {} <==>
            && Linked(e, s.id, Ids(identities)) == {}
            && forall t :: t in identities ==> Shared(s, t) < threshold
  {
    if Linked(e, s.id, Ids(identities)) == {} {
      var scores := ScoresOf(s, identities);
      if t :| t in identities && threshold <= Shared(s, t) {
        var best := MaxOf(scores);
        forall u | u in identities ensures Shared(s, u) <= best {
          var i :| 0 <= i < |identities| && identities[i] == u;
          assert scores[i] == Shared(s, u) && scores[i] in scores;
        }
        var k :| 0 <= k < |scores| && scores[k] == best;
        assert identities[k].id in Matched(e, s, identities, threshold);
      }
      if m :| m in Matched(e, s, identities, threshold) {
        var t :| t in identities && threshold <= Shared(s, t) && t.id == m;
      }
    }
  }

  /** Without relationships, the identities with the best score are the match, once that score
      reaches the threshold; the threshold is positive. */
  lemma BestIsMatched(e: Relation, s: Profile, identities: seq<Profile>, threshold: nat)
    requires Linked(e, s.id, Ids(identities)) == {} && identities != []
    ensures var best := MaxOf(ScoresOf(s, identities));
      Matched(e, s, identities, threshold) == if best < threshold then {} else Sharing(s, identities, best)
  {
    var scores := ScoresOf(s, identities);
    var best := MaxOf(scores);
    forall u | u in identities ensures Shared(s, u) <= best {
      var i :| 0 <= i < |identities| && identities[i] == u;
      assert scores[i] == Shared(s, u) && scores[i] in scores;
    }
    var k :| 0 <= k < |scores| && scores[k] == best;
    assert Shared(s, identities[k]) == best && identities[k] in identities;
  }

  /** What it means for the attacker to name one person: the only one the relationships lead to, or,
      when they lead to nobody, the only one who shares the most clues, at least the threshold. */
  ghost predicate IsNamed(e: Relation, s: Profile, identities: seq<Profile>, threshold: nat, t: Profile) {
    && t in identities
    && if exists u :: u in identities && Leads(e, s, u)
       then Leads(e, s, t) && forall u :: u in identities && Leads(e, s, u) ==> u.id == t.id
       else threshold <= Shared(s, t) && forall u :: u in identities && u.id != t.id ==> Shared(s, u) < Shared(s, t)
  }

  ghost predicate Leads(e: Relation, s: Profile, t: Profile) {
    Reachable(e, SubjectNode(s.id), IdentityNode(t.id))
  }

  ghost predicate IsInferred(e: Relation, s: Profile, identities: seq<Profile>, threshold: nat) {
    exists t :: IsNamed(e, s, identities, threshold, t)
  }

  datatype Standing = ClearOne | InferredOne | AmbiguousOne

  /** Clear when matched to nobody, inferred when matched to one identity, else ambiguous. */
  ghost function StandingOf(e: Relation, s: Profile, identities: seq<Profile>, threshold: nat): Standing {
    var n := |Matched(e, s, identities, threshold)|;
    if n == 0 then ClearOne else if n == 1 then InferredOne else AmbiguousOne
  }

  ghost function Group(e: Relation, subjects: seq<Profile>, identities: seq<Profile>, threshold: nat, k: Standing): set<string> {
    set s | s in subjects && StandingOf(e, s, identities, threshold) == k :: s.id
  }

  /** All subject -> clue -> identity paths. */
  lemma LedToAreLinked(e: Relation, s: Profile, identities: seq<Profile>)
    ensures forall t :: t in identities ==> (Leads(e, s, t) <==> t.id in Linked(e, s.id, Ids(identities)))
    ensures forall i :: i in Linked(e, s.id, Ids(identities)) ==> exists t :: t in identities && t.id == i && Leads(e, s, t)
  {
    hide Reachable;
    assert forall t :: t in identities ==> t.id in Ids(identities);
  }

  lemma SameId(identities: seq<Profile>, t: Profile, u: Profile)
    requires DistinctIds(identities) && t in identities && u in identities && t.id == u.id
    ensures t == u
  {
  }

  lemma Single<T>(s: set<T>, x: T)
    requires x in s
    ensures |s| == 1 <==> s == {x}
  {
    if |s| == 1 {
      assert |s - {x}| == 0;
    }
  }

  /** Who the attacker matches is one person exactly when somebody is named. */
  lemma NamedIsMatched(e: Relation, s: Profile, identities: seq<Profile>, threshold: nat, t: Profile)
    requires DistinctIds(identities) && t in identities
    ensures IsNamed(e, s, identities, threshold, t) <==> Matched(e, s, identities, threshold) == {t.id}
  {
    hide Reachable, Leads, Shared;
    LedToAreLinked(e, s, identities);
    var linked, matched := Linked(e, s.id, Ids(identities)), Matched(e, s, identities, threshold);
    if linked != {} {
      var i :| i in linked;
      assert exists u :: u in identities && u.id == i && Leads(e, s, u);
    } else if IsNamed(e, s, identities, threshold, t) {
      forall u | u in identities && u.id == t.id ensures u == t {
        SameId(identities, u, t);
      }
      assert t.id in matched;
    } else if matched == {t.id} {
      assert t.id in matched;
      var v :| v in identities && threshold <= Shared(s, v) && v.id == t.id
        && forall u :: u in identities ==> Shared(s, u) <= Shared(s, v);
      SameId(identities, v, t);
      forall u | u in identities && Shared(s, u) == Shared(s, t) ensures u.id in matched {
      }
    }
  }

  lemma StandingSpelled(e: Relation, s: Profile, identities: seq<Profile>, threshold: nat)
    requires DistinctIds(identities)
    ensures StandingOf(e, s, identities, threshold) == InferredOne <==> IsInferred(e, s, identities, threshold)
  {
    hide Matched, IsNamed;
    var matched := Matched(e, s, identities, threshold);
    if t :| IsNamed(e, s, identities, threshold, t) {
      NamedIsListed(e, s, identities, threshold, t);
      NamedIsMatched(e, s, identities, threshold, t);
    }
    if |matched| == 1 {
      var i :| i in matched;
      Single(matched, i);
      var t := MatchedIsListed(e, s, identities, threshold, i);
      NamedIsMatched(e, s, identities, threshold, t);
    }
  }

  lemma NamedIsListed(e: Relation, s: Profile, identities: seq<Profile>, threshold: nat, t: Profile)
    requires IsNamed(e, s, identities, threshold, t)
    ensures t in identities
  {
  }

  lemma MatchedIsListed(e: Relation, s: Profile, identities: seq<Profile>, threshold: nat, i: string) returns (t: Profile)
    requires i in Matched(e, s, identities, threshold)
    ensures t in identities && t.id == i
  {
    hide Reachable, Shared;
    t :| t in identities && t.id == i;
  }

  /** The report's first count is that of the subjects for whom somebody is named. */
  lemma InferredSpelled(e: Relation, subjects: seq<Profile>, identities: seq<Profile>, threshold: nat)
    requires DistinctIds(identities)
    ensures Group(e, subjects, identities, threshold, InferredOne)
         == set s | s in subjects && IsInferred(e, s, identities, threshold) :: s.id
    ensures Group(e, subjects, identities, threshold, ClearOne)
         == set s | s in subjects && (forall t :: t in identities ==> !Leads(e, s, t) && Shared(s, t) < threshold) :: s.id
  {
    hide StandingOf, IsInferred, Reachable, Shared;
    forall s | s in subjects
      ensures StandingOf(e, s, identities, threshold) == InferredOne <==> IsInferred(e, s, identities, threshold)
      ensures StandingOf(e, s, identities, threshold) == ClearOne
         <==> forall t :: t in identities ==> !Leads(e, s, t) && Shared(s, t) < threshold
    {
      StandingSpelled(e, s, identities, threshold);
      ClearIff(e, s, identities, threshold);
    }
  }

  ghost function AllTwoHops(subjects: seq<Profile>, identities: seq<Profile>): set<(string, Clue, string)> {
    set s, t, c | s in subjects && t in identities && c in s.clues && c in t.clues :: (s.id, c, t.id)
  }

  ghost predicate IsLargestShare(subjects: seq<Profile>, identities: seq<Profile>, m: nat) {
    && (forall s, t :: s in subjects && t in identities ==> Shared(s, t) <= m)
    && (m == 0 || exists s, t :: s in subjects && t in identities && Shared(s, t) == m)
  }

  /** What the report says about the subjects read so far. */
  ghost predicate Reports(r: Report, e: Relation, subjects: seq<Profile>, identities: seq<Profile>, threshold: nat) {
    && r.inferred == |Group(e, subjects, identities, threshold, InferredOne)|
    && r.ambiguous == |Group(e, subjects, identities, threshold, AmbiguousOne)|
    && r.clear == |Group(e, subjects, identities, threshold, ClearOne)|
    && r.twoHopPaths == |AllTwoHops(subjects, identities)|
    && IsLargestShare(subjects, identities, r.maximumShared)
  }

  lemma NothingReported(e: Relation, identities: seq<Profile>, threshold: nat)
    ensures Reports(Report(ClearRelease, 0, 0, 0, 0, 0, 0, 0), e, [], identities, threshold)
  {
    assert forall k :: Group(e, [], identities, threshold, k) == {};
    assert AllTwoHops([], identities) == {};
  }

  /** One subject more adds its own paths, which no earlier subject has. */
  lemma TwoHopsGrow(before: seq<Profile>, s: Profile, identities: seq<Profile>)
    requires DistinctIds(before + [s])
    ensures |AllTwoHops(before + [s], identities)| == |AllTwoHops(before, identities)| + |TwoHops(s, identities)|
  {
    hide DistinctIds;
    var own := set p | p in TwoHops(s, identities) :: (s.id, p.0, p.1);
    PathPairs(s.id, TwoHops(s, identities));
    FreshId(before, s);
    OwnHops(before, s, identities);
  }

  lemma OwnHops(before: seq<Profile>, s: Profile, identities: seq<Profile>)
    requires forall x :: x in before ==> x.id != s.id
    ensures var own := set p | p in TwoHops(s, identities) :: (s.id, p.0, p.1);
      AllTwoHops(before + [s], identities) == AllTwoHops(before, identities) + own && AllTwoHops(before, identities) !! own
  {
    var own := set p | p in TwoHops(s, identities) :: (s.id, p.0, p.1);
    forall q | q in AllTwoHops(before + [s], identities) ensures q in AllTwoHops(before, identities) + own {
      var x, t, c :| x in before + [s] && t in identities && c in x.clues && c in t.clues && q == (x.id, c, t.id);
      if x == s {
        assert (c, t.id) in TwoHops(s, identities);
      }
    }
  }

  lemma {:induction false} PathPairs(id: string, paths: set<(Clue, string)>)
    ensures |set p | p in paths :: (id, p.0, p.1)| == |paths|
    decreases paths
  {
    var all := set p | p in paths :: (id, p.0, p.1);
    if paths == {} {
      assert all == {};
    } else {
      var p :| p in paths;
      PathPairs(id, paths - {p});
      var rest := set q | q in paths - {p} :: (id, q.0, q.1);
      assert all == rest + {(id, p.0, p.1)};
      assert (id, p.0, p.1) !in rest;
    }
  }

  lemma ShareGrows(before: seq<Profile>, s: Profile, identities: seq<Profile>, m: nat)
    requires IsLargestShare(before, identities, m) && identities != []
    ensures var best := MaxOf(ScoresOf(s, identities)); IsLargestShare(before + [s], identities, if best < m then m else best)
  {
    var scores := ScoresOf(s, identities);
    var best := MaxOf(scores);
    forall u | u in identities ensures Shared(s, u) <= best {
      var i :| 0 <= i < |identities| && identities[i] == u;
      assert scores[i] == Shared(s, u) && scores[i] in scores;
    }
    if best < m {
      var x, t :| x in before && t in identities && Shared(x, t) == m;
      assert x in before + [s];
    } else {
      var k :| 0 <= k < |scores| && scores[k] == best;
      assert s in before + [s] && identities[k] in identities && Shared(s, identities[k]) == best;
    }
  }

  /** A further subject joins exactly one of the three groups. */
  lemma GroupGrows(e: Relation, before: seq<Profile>, s: Profile, identities: seq<Profile>, threshold: nat, k: Standing)
    requires DistinctIds(before + [s])
    ensures |Group(e, before + [s], identities, threshold, k)|
            == |Group(e, before, identities, threshold, k)| + (if StandingOf(e, s, identities, threshold) == k then 1 else 0)
  {
    hide StandingOf;
    FreshId(before, s);
    hide DistinctIds;
    var earlier, grown := Group(e, before, identities, threshold, k), Group(e, before + [s], identities, threshold, k);
    var joins := StandingOf(e, s, identities, threshold) == k;
    forall x ensures x in grown <==> x in earlier || (joins && x == s.id) {
      if p :| p in before + [s] && StandingOf(e, p, identities, threshold) == k && p.id == x {
        assert p in before || p == s;
      }
      if p :| p in before && StandingOf(e, p, identities, threshold) == k && p.id == x {
        assert p in before + [s];
      }
      if joins && x == s.id {
        assert s in before + [s];
      }
    }
    assert grown == if joins then earlier + {s.id} else earlier;
    assert s.id !in earlier;
  }

  /** The branches of the audit decide by the size of the match. */
  lemma MatchSize(e: Relation, s: Profile, identities: seq<Profile>, threshold: nat)
    requires DistinctIds(identities) && identities != []
    ensures var linked := Linked(e, s.id, Ids(identities));
      var scores := ScoresOf(s, identities);
      var winners := CountOf(scores, MaxOf(scores));
      && winners > 0
      && |Matched(e, s, identities, threshold)|
         == if linked != {} then |linked| else if MaxOf(scores) < threshold then 0 else winners
  {
    var scores := ScoresOf(s, identities);
    var best := MaxOf(scores);
    WinnersAreIdentities(s, identities, best);
    var k :| 0 <= k < |scores| && scores[k] == best;
    assert identities[k].id in Sharing(s, identities, best);
    if Linked(e, s.id, Ids(identities)) == {} {
      BestIsMatched(e, s, identities, threshold);
    }
  }

  /** Scores one subject against every identity. */
  method Score(s: Profile, identities: seq<Profile>) returns (scores: seq<nat>, paths: nat)
    requires DistinctIds(identities)
    ensures scores == ScoresOf(s, identities)
    ensures paths == |TwoHops(s, identities)|
  {
    scores, paths := [], 0;
    assert TwoHops(s, []) == {};
    hide TwoHops, Shared;
    assert identities[..0] == [];
    for i := 0 to |identities|
      invariant scores == ScoresOf(s, identities[..i])
      invariant paths == |TwoHops(s, identities[..i])|
    {
      var shared := Shared(s, identities[i]);
      assert identities[..i + 1] == identities[..i] + [identities[i]];
      PrefixDistinct(identities, i + 1);
      OneMoreIdentity(s, identities[..i], identities[i]);
      scores := scores + [shared];
      paths := paths + shared;
    }
    assert identities[..|identities|] == identities;
  }

  lemma PrefixDistinct(people: seq<Profile>, n: nat)
    requires DistinctIds(people) && n <= |people|
    ensures DistinctIds(people[..n])
  {
  }

  ghost function RelationOf(edges: Option<seq<Edge>>): Relation {
    if edges.Some? then Pairs(edges.value) else {}
  }

  ghost predicate EdgesAccepted(edges: Option<seq<Edge>>, subjects: set<string>, identities: set<string>) {
    edges.Some? ==> EdgesValid(edges.value, subjects, identities)
  }

  lemma {:induction false} NoEdgesNoPath(u: Node, v: Node, n: nat)
    requires Reaches({}, u, v, n)
    ensures u == v
  {
  }

  lemma NoEdgesNoLinks(subjects: set<string>, identities: set<string>)
    ensures Links({}, subjects, identities) == {} && HopsBound({}, {}, 0)
    ensures forall s :: Linked({}, s, identities) == {}
  {
    forall s, i ensures !Reachable({}, SubjectNode(s), IdentityNode(i)) {
      assert SubjectNode(s)[0] != IdentityNode(i)[0];
      if n: nat :| Reaches({}, SubjectNode(s), IdentityNode(i), n) {
        NoEdgesNoPath(SubjectNode(s), IdentityNode(i), n);
      }
    }
    hide Reachable;
    forall s ensures Linked({}, s, identities) == {} {
    }
  }

  /** No subject reaches an identity, and none shares `threshold` clues with one. */
  ghost predicate Safe(e: Relation, subjects: seq<Profile>, identities: seq<Profile>, threshold: nat) {
    forall s, t :: s in subjects && t in identities ==>
      !Reachable(e, SubjectNode(s.id), IdentityNode(t.id)) && Shared(s, t) < threshold
  }

  /** Every subject is counted once. */
  lemma {:induction false} CountsAddUp(e: Relation, subjects: seq<Profile>, identities: seq<Profile>, threshold: nat)
    requires DistinctIds(subjects)
    ensures |Group(e, subjects, identities, threshold, InferredOne)| + |Group(e, subjects, identities, threshold, AmbiguousOne)|
            + |Group(e, subjects, identities, threshold, ClearOne)| == |subjects|
    decreases |subjects|
  {
    hide Matched;
    if subjects == [] {
      NothingReported(e, identities, threshold);
    } else {
      var before, s := subjects[..|subjects| - 1], subjects[|subjects| - 1];
      assert subjects == before + [s];
      FreshId(before, s);
      GroupGrows(e, before, s, identities, threshold, InferredOne);
      GroupGrows(e, before, s, identities, threshold, AmbiguousOne);
      GroupGrows(e, before, s, identities, threshold, ClearOne);
      CountsAddUp(e, before, identities, threshold);
    }
  }

  /** Everybody is clear exactly when nobody is matched, which is what `Safe` says. */
  lemma NobodyMatchedIffSafe(e: Relation, subjects: seq<Profile>, identities: seq<Profile>, threshold: nat)
    ensures Safe(e, subjects, identities, threshold) <==>
            && |Group(e, subjects, identities, threshold, InferredOne)| == 0
            && |Group(e, subjects, identities, threshold, AmbiguousOne)| == 0
  {
    hide StandingOf, Reachable;
    forall s | s in subjects
      ensures StandingOf(e, s, identities, threshold) == ClearOne <==>
              forall t :: t in identities ==> !Reachable(e, SubjectNode(s.id), IdentityNode(t.id)) && Shared(s, t) < threshold
    {
      ClearIff(e, s, identities, threshold);
    }
    if Safe(e, subjects, identities, threshold) {
      assert Group(e, subjects, identities, threshold, InferredOne) == {};
      assert Group(e, subjects, identities, threshold, AmbiguousOne) == {};
    } else {
      var s, t :| s in subjects && t in identities &&
        !(!Reachable(e, SubjectNode(s.id), IdentityNode(t.id)) && Shared(s, t) < threshold);
      assert s.id in Group(e, subjects, identities, threshold, StandingOf(e, s, identities, threshold));
    }
  }

  lemma ClearIff(e: Relation, s: Profile, identities: seq<Profile>, threshold: nat)
    ensures StandingOf(e, s, identities, threshold) == ClearOne <==>
            forall t :: t in identities ==> !Reachable(e, SubjectNode(s.id), IdentityNode(t.id)) && Shared(s, t) < threshold
  {
    hide Reachable;
    UnmatchedIff(e, s, identities, threshold);
    forall t | t in identities ensures t.id in Ids(identities) {
    }
    if t :| t in identities && Reachable(e, SubjectNode(s.id), IdentityNode(t.id)) {
      assert t.id in Linked(e, s.id, Ids(identities));
    }
    hide Matched;
  }

  lemma {:induction false} ReachesMore(e: Relation, more: Relation, u: Node, v: Node, n: nat)
    requires e <= more && Reaches(e, u, v, n)
    ensures Reaches(more, u, v, n)
    decreases n
  {
    if n > 0 {
      var w :| Reaches(e, u, w, n - 1) && (w, v) in e;
      ReachesMore(e, more, u, w, n - 1);
    }
  }

  /** Each person of `people` is also in `more`, with at least the same clues. */
  ghost predicate KnowsMore(people: seq<Profile>, more: seq<Profile>) {
    forall p :: p in people ==> exists q :: q in more && q.id == p.id && p.clues <= q.clues
  }

  lemma SharedGrows(s: Profile, t: Profile, s': Profile, t': Profile)
    requires s.clues <= s'.clues && t.clues <= t'.clues
    ensures Shared(s, t) <= Shared(s', t')
  {
    SubsetSize(s.clues * t.clues, s'.clues * t'.clues);
  }

  lemma SubsetSize(a: set<Clue>, b: set<Clue>)
    requires a <= b
    ensures |a| <= |b|
  {
    assert b == a + (b - a);
  }

  /** An attacker who knows more edges, more clues or more people, or who is content with fewer
      shared clues, never turns a blocked release into a clear one. */
  lemma MoreKnowledgeNeverClears(e: Relation, subjects: seq<Profile>, identities: seq<Profile>, threshold: nat,
                                 e': Relation, subjects': seq<Profile>, identities': seq<Profile>, fewerShared: nat)
    requires e <= e' && KnowsMore(subjects, subjects') && KnowsMore(identities, identities') && fewerShared <= threshold
    requires Safe(e', subjects', identities', fewerShared)
    ensures Safe(e, subjects, identities, threshold)
  {
    forall s, t | s in subjects && t in identities
      ensures !Reachable(e, SubjectNode(s.id), IdentityNode(t.id)) && Shared(s, t) < threshold
    {
      var s' :| s' in subjects' && s'.id == s.id && s.clues <= s'.clues;
      var t' :| t' in identities' && t'.id == t.id && t.clues <= t'.clues;
      SharedGrows(s, t, s', t');
      if n: nat :| Reaches(e, SubjectNode(s.id), IdentityNode(t.id), n) {
        ReachesMore(e, e', SubjectNode(s.id), IdentityNode(t.id), n);
      }
    }
  }

  /** Attacks the given profiles: relationships first, then shared clues. */
  method AuditProfiles(subjects: seq<Profile>, identities: seq<Profile>, edges: Option<seq<Edge>>, threshold: nat)
    returns (r: Result<Report, GraphError>)
    requires DistinctIds(subjects) && DistinctIds(identities) && identities != []
    ensures r.Ok? <==> EdgesAccepted(edges, Ids(subjects), Ids(identities))
    ensures r.Ok? ==> (r.value.verdict == ClearRelease <==> Safe(RelationOf(edges), subjects, identities, threshold))
    ensures r.Ok? ==> Reports(r.value, RelationOf(edges), subjects, identities, threshold)
    ensures r.Ok? ==> r.value.relationshipPaths == |Links(RelationOf(edges), Ids(subjects), Ids(identities))|
    ensures r.Ok? ==> HopsBound(RelationOf(edges), Links(RelationOf(edges), Ids(subjects), Ids(identities)), r.value.maximumHops)
    ensures r.Ok? ==> r.value.inferred + r.value.ambiguous + r.value.clear == |subjects|
    ensures r.Ok? ==>
      && r.value.inferred == |set s | s in subjects && IsInferred(RelationOf(edges), s, identities, threshold) :: s.id|
      && r.value.clear == |set s | s in subjects && (forall t :: t in identities ==>
           !Leads(RelationOf(edges), s, t) && Shared(s, t) < threshold) :: s.id|
  {
    hide IsInferred, Leads, EdgesValid, Represents, HopsBound, Linked, Links, Safe, Matched, Reports;
    ghost var e := RelationOf(edges);
    var reachable: map<string, set<string>>, paths: nat, hops: nat := map[], 0, 0;
    if edges.Some? {
      var read := ReadEdges(edges.value, Ids(subjects), Ids(identities));
      if read.Err? {
        return Err(read.error);
      }
      reachable, paths, hops := Reachability(read.value, e, Ids(subjects), Ids(identities));
    } else {
      NoEdgesNoLinks(Ids(subjects), Ids(identities));
    }
    var report := Judge(e, reachable, subjects, identities, threshold);
    NobodyMatchedIffSafe(e, subjects, identities, threshold);
    CountsAddUp(e, subjects, identities, threshold);
    Unfold(report, e, subjects, identities, threshold);
    InferredSpelled(e, subjects, identities, threshold);
    var verdict := if report.inferred > 0 || report.ambiguous > 0 then BlockRelease else ClearRelease;
    r := Ok(report.(verdict := verdict, relationshipPaths := paths, maximumHops := hops));
    CountsOnly(report, r.value, e, subjects, identities, threshold);
  }

  lemma Unfold(r: Report, e: Relation, subjects: seq<Profile>, identities: seq<Profile>, threshold: nat)
    requires Reports(r, e, subjects, identities, threshold)
    ensures r.inferred == |Group(e, subjects, identities, threshold, InferredOne)|
    ensures r.ambiguous == |Group(e, subjects, identities, threshold, AmbiguousOne)|
    ensures r.clear == |Group(e, subjects, identities, threshold, ClearOne)|
  {
  }

  lemma CountsOnly(r: Report, r': Report, e: Relation, subjects: seq<Profile>, identities: seq<Profile>, threshold: nat)
    requires Reports(r, e, subjects, identities, threshold)
    requires r' == r.(verdict := r'.verdict, relationshipPaths := r'.relationshipPaths, maximumHops := r'.maximumHops)
    ensures Reports(r', e, subjects, identities, threshold)
  {
  }

  /** How one subject stands: relationships decide first, then the best score. */
  method JudgeOne(ghost e: Relation, reachable: map<string, set<string>>, s: Profile, identities: seq<Profile>, threshold: nat)
    returns (standing: Standing, paths: nat, best: nat)
    requires DistinctIds(identities) && identities != []
    requires (if s.id in reachable then reachable[s.id] else {}) == Linked(e, s.id, Ids(identities))
    ensures standing == StandingOf(e, s, identities, threshold)
    ensures paths == |TwoHops(s, identities)| && best == MaxOf(ScoresOf(s, identities))
  {
    hide Linked, Matched, ScoresOf, MaxOf, CountOf;
    var scores: seq<nat>;
    scores, paths := Score(s, identities);
    best := MaxOf(scores);
    var winners := CountOf(scores, best);
    var linked := if s.id in reachable then reachable[s.id] else {};
    MatchSize(e, s, identities, threshold);
    if |linked| == 1 {
      standing := InferredOne;
    } else if |linked| > 1 {
      standing := AmbiguousOne;
    } else if best < threshold {
      standing := ClearOne;
    } else if winners == 1 {
      standing := InferredOne;
    } else {
      standing := AmbiguousOne;
    }
  }

  /** The reachable map lists every subject that is linked, with all its identities. */
  ghost predicate ListsLinks(reachable: map<string, set<string>>, e: Relation, subjects: set<string>, identities: set<string>) {
    && (forall s :: s in reachable <==> s in subjects && Linked(e, s, identities) != {})
    && (forall s :: s in reachable ==> reachable[s] == Linked(e, s, identities))
  }

  lemma LinksOf(reachable: map<string, set<string>>, e: Relation, subjects: set<string>, identities: set<string>, s: string)
    requires ListsLinks(reachable, e, subjects, identities) && s in subjects
    ensures (if s in reachable then reachable[s] else {}) == Linked(e, s, identities)
  {
    hide Linked;
  }

  /** The scoring loop over the subjects. */
  method Judge(ghost e: Relation, reachable: map<string, set<string>>, subjects: seq<Profile>,
          identities: seq<Profile>, threshold: nat)
    returns (r: Report)
    requires DistinctIds(subjects) && DistinctIds(identities) && identities != []
    requires ListsLinks(reachable, e, Ids(subjects), Ids(identities))
    ensures Reports(r, e, subjects, identities, threshold)
  {
    r := Report(ClearRelease, 0, 0, 0, 0, 0, 0, 0);
    NothingReported(e, identities, threshold);
    assert subjects[..0] == [];
    hide *;
    for i := 0 to |subjects|
      invariant Reports(r, e, subjects[..i], identities, threshold)
    {
      ghost var before := r;
      PrefixStep(subjects, i);
      LinksOf(reachable, e, Ids(subjects), Ids(identities), subjects[i].id);
      var standing, paths, best := JudgeOne(e, reachable, subjects[i], identities, threshold);
      r := r.(twoHopPaths := r.twoHopPaths + paths, maximumShared := if best < r.maximumShared then r.maximumShared else best);
      match standing {
        case InferredOne => r := r.(inferred := r.inferred + 1);
        case AmbiguousOne => r := r.(ambiguous := r.ambiguous + 1);
        case ClearOne => r := r.(clear := r.clear + 1);
      }
      OneMoreReported(before, r, e, subjects[..i], subjects[i], identities, threshold);
    }
    assert subjects[..|subjects|] == subjects;
  }

  lemma PrefixStep(people: seq<Profile>, i: nat)
    requires DistinctIds(people) && i < |people|
    ensures people[..i + 1] == people[..i] + [people[i]] && DistinctIds(people[..i] + [people[i]])
    ensures people[i].id in Ids(people)
  {
  }

  lemma OneMoreReported(before: Report, r: Report, e: Relation, done: seq<Profile>, s: Profile,
          identities: seq<Profile>, threshold: nat)
    requires DistinctIds(done + [s]) && identities != []
    requires Reports(before, e, done, identities, threshold)
    requires var k := StandingOf(e, s, identities, threshold);
      && r.clear == before.clear + (if k == ClearOne then 1 else 0)
      && r.inferred == before.inferred + (if k == InferredOne then 1 else 0)
      && r.ambiguous == before.ambiguous + (if k == AmbiguousOne then 1 else 0)
    requires r.twoHopPaths == before.twoHopPaths + |TwoHops(s, identities)|
    requires var best := MaxOf(ScoresOf(s, identities));
      r.maximumShared == if best < before.maximumShared then before.maximumShared else best
    ensures Reports(r, e, done + [s], identities, threshold)
  {
    hide StandingOf, TwoHops, AllTwoHops, IsLargestShare, MaxOf, Group;
    GroupGrows(e, done, s, identities, threshold, InferredOne);
    GroupGrows(e, done, s, identities, threshold, AmbiguousOne);
    GroupGrows(e, done, s, identities, threshold, ClearOne);
    TwoHopsGrow(done, s, identities);
    ShareGrows(done, s, identities, before.maximumShared);
  }

  /** The whole audit of an input with listed clues. */
  method Audit(authorized: bool, minSharedClues: int, subjectRows: seq<Row>, identityRows: seq<Row>, edges: Option<seq<Edge>>)
    returns (r: Result<Report, GraphError>)
    ensures minSharedClues < 2 ==> r == Err(InvalidThreshold)
    ensures minSharedClues >= 2 && !authorized ==> r == Err(NotAuthorized)
    ensures r.Ok? <==>
            && minSharedClues >= 2 && authorized && RowsOk(subjectRows) && RowsOk(identityRows)
            && EdgesAccepted(edges, Ids(Profiles(subjectRows)), Ids(Profiles(identityRows)))
    ensures r.Ok? ==> (r.value.verdict == ClearRelease <==>
              Safe(RelationOf(edges), Profiles(subjectRows), Profiles(identityRows), minSharedClues))
    ensures r.Ok? ==> Reports(r.value, RelationOf(edges), Profiles(subjectRows), Profiles(identityRows), minSharedClues)
  {
    if minSharedClues < 2 {
      return Err(InvalidThreshold);
    }
    if !authorized {
      return Err(NotAuthorized);
    }
    hide EdgesAccepted, Safe, Reports, RelationOf, RowsOk, HopsBound, Links;
    var subjects := ReadRows(subjectRows);
    if subjects.Err? {
      return Err(subjects.error);
    }
    assert subjects.value == Profiles(subjectRows);
    var identities := ReadRows(identityRows);
    if identities.Err? {
      return Err(identities.error);
    }
    assert identities.value == Profiles(identityRows);
    NotEmpty(identityRows);
    r := AuditProfiles(subjects.value, identities.value, edges, minSharedClues);
  }

  lemma NotEmpty(rows: seq<Row>)
    requires RowsOk(rows)
    ensures rows != []
  {
  }

  ghost function Profiles(rows: seq<Row>): seq<Profile> {
    seq(|rows|, i requires 0 <= i < |rows| => Profile(rows[i].id, ClueSet(rows[i].clues)))
  }
}
