/** The multi-pattern automaton: a trie grown in place, failure links set breadth first,
    output lists merged along them, and a scan that reports every occurrence. */
module AhoCorasick {

  import opened Occurrences

  // ---------- Suffix reasoning over the set of strings a trie spells ----------

  ghost predicate PrefixClosed(words: seq<string>) {
    && "" in words
    && forall w: string :: w in words && w != "" ==> w[..|w| - 1] in words
  }

  /** The longest suffix of `w` the trie spells. */
  ghost function LongestSuffix(words: seq<string>, w: string): (r: string)
    requires "" in words
    ensures r in words && |r| <= |w|
  {
    if w in words then w else LongestSuffix(words, w[1..])
  }

  /** What chasing failure links from `u` on character `c` arrives at. */
  ghost function Chase(words: seq<string>, u: string, c: char): string
    requires "" in words
    decreases |u|
  {
    if u + [c] in words then u + [c]
    else if u == "" then ""
    else Chase(words, LongestSuffix(words, u[1..]), c)
  }

  /** The automaton step is right: chasing from the longest suffix of `w` gives the longest
      suffix of `w + [c]`. */
  lemma {:induction false} ChaseIsLongestSuffix(words: seq<string>, w: string, c: char)
    requires PrefixClosed(words)
    ensures LongestSuffix(words, w + [c]) == Chase(words, LongestSuffix(words, w), c)
  {
    if w + [c] in words {
      assert (w + [c])[..|w + [c]| - 1] == w;
    } else if w == "" {
      assert (w + [c])[1..] == "";
    } else {
      assert (w + [c])[1..] == w[1..] + [c];
      ChaseIsLongestSuffix(words, w[1..], c);
    }
  }

  lemma {:induction false} SuffixOutputsSkip(patterns: seq<Pattern>, words: seq<string>, w: string)
    requires "" in words
    requires forall p :: p in patterns ==> p.literal in words
    ensures SuffixOutputs(patterns, w) == SuffixOutputs(patterns, LongestSuffix(words, w))
  {
    if w !in words {
      OwnOfUnknown(patterns, words, w);
      SuffixOutputsSkip(patterns, words, w[1..]);
    }
  }

  lemma OwnOfUnknown(patterns: seq<Pattern>, words: seq<string>, w: string)
    requires forall p :: p in patterns ==> p.literal in words
    requires w !in words
    ensures Own(patterns, w) == []
  {
    if patterns != [] {
      var last := patterns[|patterns| - 1];
      assert last in patterns;
      OwnOfUnknown(patterns[..|patterns| - 1], words, w);
    }
  }

  // ---------- The trie, as a value ----------

  /** Node `n` spells `paths[n]`; `parents[n]` is the node it hangs from. */
  ghost predicate IsTrie(gotos: seq<map<char, nat>>, paths: seq<string>, parents: seq<nat>) {
    && |gotos| == |paths| == |parents| && |paths| > 0 && paths[0] == ""
    && (forall n, c :: 0 <= n < |gotos| && c in gotos[n] ==> EdgeOk(gotos, paths, parents, n, c))
    && (forall n :: 0 < n < |paths| ==> Hangs(gotos, paths, parents, n))
  }

  ghost predicate EdgeOk(gotos: seq<map<char, nat>>, paths: seq<string>, parents: seq<nat>, n: nat, c: char)
    requires |gotos| == |paths| == |parents| && n < |gotos| && c in gotos[n]
  {
    var m := gotos[n][c];
    0 < m < |gotos| && paths[m] == paths[n] + [c] && parents[m] == n
  }

  ghost predicate Hangs(gotos: seq<map<char, nat>>, paths: seq<string>, parents: seq<nat>, n: nat)
    requires |gotos| == |paths| == |parents| && 0 < n < |paths|
  {
    var w := paths[n];
    && parents[n] < n && w != "" && paths[parents[n]] == w[..|w| - 1]
    && w[|w| - 1] in gotos[parents[n]] && gotos[parents[n]][w[|w| - 1]] == n
  }

  lemma {:induction false} PathsInjective(gotos: seq<map<char, nat>>, paths: seq<string>, parents: seq<nat>, m: nat, n: nat)
    requires IsTrie(gotos, paths, parents)
    requires m < |paths| && n < |paths| && paths[m] == paths[n]
    ensures m == n
    decreases m
  {
    assert m != 0 ==> Hangs(gotos, paths, parents, m);
    assert n != 0 ==> Hangs(gotos, paths, parents, n);
    if m != 0 && n != 0 {
      PathsInjective(gotos, paths, parents, parents[m], parents[n]);
    }
  }

  lemma TriePrefixClosed(gotos: seq<map<char, nat>>, paths: seq<string>, parents: seq<nat>)
    requires IsTrie(gotos, paths, parents)
    ensures PrefixClosed(paths)
  {
    forall w: string | w in paths && w != "" ensures w[..|w| - 1] in paths {
      var n :| 0 <= n < |paths| && paths[n] == w;
      assert Hangs(gotos, paths, parents, n);
    }
  }

  lemma TrieStep(gotos: seq<map<char, nat>>, paths: seq<string>, parents: seq<nat>, w: string, c: char)
    requires IsTrie(gotos, paths, parents)
    ensures LongestSuffix(paths, w + [c]) == Chase(paths, LongestSuffix(paths, w), c)
  {
    TriePrefixClosed(gotos, paths, parents);
    ChaseIsLongestSuffix(paths, w, c);
  }

  /** A node has an edge on `c` exactly when the trie spells its path extended by `c`. */
  lemma EdgeIffWord(gotos: seq<map<char, nat>>, paths: seq<string>, parents: seq<nat>, n: nat, c: char)
    requires IsTrie(gotos, paths, parents) && n < |paths|
    ensures c in gotos[n] <==> paths[n] + [c] in paths
  {
    if paths[n] + [c] in paths {
      var m :| 0 <= m < |paths| && paths[m] == paths[n] + [c];
      assert Hangs(gotos, paths, parents, m);
      assert (paths[n] + [c])[..|paths[n]|] == paths[n];
      PathsInjective(gotos, paths, parents, parents[m], n);
    }
    if c in gotos[n] {
      assert EdgeOk(gotos, paths, parents, n, c);
    }
  }

  lemma TrieExtended(gotos: seq<map<char, nat>>, paths: seq<string>, parents: seq<nat>, node: nat, ch: char)
    requires IsTrie(gotos, paths, parents) && node < |paths| && ch !in gotos[node]
    ensures IsTrie((gotos + [map[]])[node := gotos[node][ch := |gotos|]], paths + [paths[node] + [ch]], parents + [node])
  {
    var gotos' := (gotos + [map[]])[node := gotos[node][ch := |gotos|]];
    var paths', parents' := paths + [paths[node] + [ch]], parents + [node];
    forall n, c | 0 <= n < |gotos'| && c in gotos'[n] ensures EdgeOk(gotos', paths', parents', n, c) {
      if n < |gotos| && c in gotos[n] {
        assert EdgeOk(gotos, paths, parents, n, c);
      }
    }
    forall n | 0 < n < |paths'| ensures Hangs(gotos', paths', parents', n) {
      if n < |paths| {
        assert Hangs(gotos, paths, parents, n);
      }
    }
  }

  /** The failure link of `n` is the longest proper suffix of its path the trie spells. */
  ghost predicate FailOk(paths: seq<string>, fail: seq<nat>, n: nat)
    requires "" in paths && |fail| == |paths| && n < |paths|
  {
    && fail[n] < |paths|
    && (n == 0 ==> fail[n] == 0)
    && (n != 0 ==> paths[n] != "" && paths[fail[n]] == LongestSuffix(paths, paths[n][1..]))
  }

  /** `n` is final: right failure link, and the outputs of every suffix of its path. */
  ghost predicate Linked(patterns: seq<Pattern>, paths: seq<string>, fail: seq<nat>, out: seq<seq<Output>>, n: nat)
    requires "" in paths && |fail| == |out| == |paths| && n < |paths|
  {
    FailOk(paths, fail, n) && out[n] == SuffixOutputs(patterns, paths[n])
  }

  ghost predicate LiteralsSpelled(patterns: seq<Pattern>, paths: seq<string>) {
    forall p :: p in patterns ==> p.literal in paths && p.literal != ""
  }

  // ---------- Breadth-first progress ----------

  /** `done` nodes are final, all others still hold their own outputs only. */
  ghost predicate Finals(patterns: seq<Pattern>, paths: seq<string>, fail: seq<nat>, out: seq<seq<Output>>, done: set<nat>)
    requires "" in paths && |fail| == |out| == |paths|
  {
    && (forall n :: n in done ==> n < |paths| && Linked(patterns, paths, fail, out, n))
    && (forall n :: 0 <= n < |paths| && n !in done ==> out[n] == Own(patterns, paths[n]))
  }

  /** A node is done once its parent has been taken from the queue, unless still pending. */
  ghost predicate Opened(parents: seq<nat>, done: set<nat>, processed: set<nat>, pending: set<nat>) {
    && 0 in done && 0 in processed && processed <= done
    && (forall n :: 0 < n < |parents| ==> (n in done <==> parents[n] in processed && n !in pending))
  }

  /** The queue holds each done but unprocessed node once, by increasing depth: all of depth
      `depth`, then all of the next. */
  ghost predicate Queued(paths: seq<string>, queue: seq<nat>, done: set<nat>, processed: set<nat>, depth: nat) {
    && (forall n :: n in done && n !in processed ==> n in queue)
    && (forall i :: 0 <= i < |queue| ==> queue[i] < |paths| && queue[i] in done && queue[i] !in processed)
    && (forall i, j :: 0 <= i < j < |queue| ==> queue[i] != queue[j])
    && (forall i, j :: 0 <= i <= j < |queue| ==> depth <= |paths[queue[i]]| <= |paths[queue[j]]| <= depth + 1)
  }

  lemma {:induction false} ShallowIsDone(gotos: seq<map<char, nat>>, paths: seq<string>, parents: seq<nat>,
      queue: seq<nat>, done: set<nat>, processed: set<nat>, depth: nat, n: nat)
    requires IsTrie(gotos, paths, parents)
    requires Opened(parents, done, processed, {}) && Queued(paths, queue, done, processed, depth)
    requires n < |paths| && (queue == [] || |paths[n]| <= |paths[queue[0]]|)
    ensures n in done
    decreases |paths[n]|
  {
    if n != 0 && n !in done {
      assert Hangs(gotos, paths, parents, n);
      ShallowIsDone(gotos, paths, parents, queue, done, processed, depth, parents[n]);
    }
  }

  ghost function Children(edges: map<char, nat>, todo: set<char>): set<nat> {
    set c | c in todo && c in edges :: edges[c]
  }

  ghost function Below(n: nat): (s: set<nat>)
    ensures forall i: nat :: i in s <==> i < n
  {
    if n == 0 then {} else Below(n - 1) + {n - 1}
  }

  /** Taking the head of the queue makes its children pending. */
  lemma StartNode(gotos: seq<map<char, nat>>, paths: seq<string>, parents: seq<nat>,
      queue: seq<nat>, done: set<nat>, processed: set<nat>, depth: nat)
    requires IsTrie(gotos, paths, parents) && queue != []
    requires Opened(parents, done, processed, {}) && Queued(paths, queue, done, processed, depth)
    ensures queue[0] < |paths| && queue[0] in done && queue[0] !in processed
    ensures var node := queue[0];
      && Opened(parents, done, processed + {node}, Children(gotos[node], gotos[node].Keys))
      && Queued(paths, queue[1..], done, processed + {node}, |paths[node]|)
      && (forall n :: 0 <= n < |paths| && |paths[n]| <= |paths[node]| ==> n in done)
  {
    var node := queue[0];
    forall n | 0 <= n < |paths| && |paths[n]| <= |paths[node]| ensures n in done {
      ShallowIsDone(gotos, paths, parents, queue, done, processed, depth, n);
    }
    ChildrenHang(gotos, paths, parents, node);
    hide IsTrie;
    var rest := queue[1..];
    forall n | n in done && n !in processed + {node} ensures n in rest {
      var i :| 0 <= i < |queue| && queue[i] == n;
      assert rest[i - 1] == n;
    }
  }

  lemma ChildrenHang(gotos: seq<map<char, nat>>, paths: seq<string>, parents: seq<nat>, node: nat)
    requires IsTrie(gotos, paths, parents) && node < |paths|
    ensures forall n :: 0 < n < |parents| ==> (parents[n] == node <==> n in Children(gotos[node], gotos[node].Keys))
    ensures forall n :: n in Children(gotos[node], gotos[node].Keys) ==> 0 < n < |parents|
  {
    forall n | 0 < n < |parents| && parents[n] == node ensures n in Children(gotos[node], gotos[node].Keys) {
      assert Hangs(gotos, paths, parents, n);
    }
    forall n | n in Children(gotos[node], gotos[node].Keys) ensures 0 < n < |parents| && parents[n] == node {
      var c :| c in gotos[node] && gotos[node][c] == n;
      assert EdgeOk(gotos, paths, parents, node, c);
    }
  }

  /** Linking a pending child enqueues it and makes it done. */
  lemma OpenChild(gotos: seq<map<char, nat>>, paths: seq<string>, parents: seq<nat>,
      queue: seq<nat>, done: set<nat>, processed: set<nat>, node: nat, todo: set<char>, ch: char)
    requires IsTrie(gotos, paths, parents) && node < |paths| && node in processed
    requires ch in todo && ch in gotos[node]
    requires Opened(parents, done, processed, Children(gotos[node], todo))
    requires Queued(paths, queue, done, processed, |paths[node]|)
    ensures var nxt := gotos[node][ch];
      && nxt < |paths| && nxt !in done && paths[nxt] == paths[node] + [ch]
      && Opened(parents, done + {nxt}, processed, Children(gotos[node], todo - {ch}))
      && Queued(paths, queue + [nxt], done + {nxt}, processed, |paths[node]|)
  {
    var nxt := gotos[node][ch];
    assert EdgeOk(gotos, paths, parents, node, ch);
    assert nxt in Children(gotos[node], todo);
    forall c | c in todo && c in gotos[node] && c != ch ensures gotos[node][c] != nxt {
      assert EdgeOk(gotos, paths, parents, node, c);
      assert (paths[node] + [c])[|paths[node]|] == c && (paths[node] + [ch])[|paths[node]|] == ch;
    }
    assert Children(gotos[node], todo - {ch}) == Children(gotos[node], todo) - {nxt};
    var longer := queue + [nxt];
    forall n | n in done + {nxt} && n !in processed ensures n in longer {
      if n == nxt {
        assert longer[|queue|] == n;
      }
    }
  }

  /** Giving a node its failure link and merged outputs makes it final. */
  lemma LinkNode(patterns: seq<Pattern>, paths: seq<string>, fail: seq<nat>, out: seq<seq<Output>>,
      done: set<nat>, nxt: nat, link: nat)
    requires "" in paths && |fail| == |out| == |paths|
    requires LiteralsSpelled(patterns, paths)
    requires Finals(patterns, paths, fail, out, done)
    requires 0 < nxt < |paths| && nxt !in done && link in done && paths[nxt] != ""
    requires paths[link] == LongestSuffix(paths, paths[nxt][1..])
    ensures Finals(patterns, paths, fail[nxt := link], out[nxt := out[nxt] + out[link]], done + {nxt})
  {
    hide LongestSuffix, Own;
    SuffixOutputsSkip(patterns, paths, paths[nxt][1..]);
    assert Linked(patterns, paths, fail, out, link);
    var fail', out' := fail[nxt := link], out[nxt := out[nxt] + out[link]];
    forall n | n in done + {nxt} ensures Linked(patterns, paths, fail', out', n) {
      assert n != nxt ==> Linked(patterns, paths, fail, out, n);
    }
  }

  lemma OwnOfEmpty(patterns: seq<Pattern>)
    requires forall p :: p in patterns ==> p.literal != ""
    ensures Own(patterns, "") == []
  {
    if patterns != [] {
      assert patterns[|patterns| - 1] in patterns;
      OwnOfEmpty(patterns[..|patterns| - 1]);
    }
  }

  lemma RootOpened(gotos: seq<map<char, nat>>, paths: seq<string>, parents: seq<nat>)
    requires IsTrie(gotos, paths, parents)
    ensures Opened(parents, {0}, {0}, Children(gotos[0], gotos[0].Keys))
  {
    forall n | 0 < n < |parents| && parents[n] == 0 ensures n in Children(gotos[0], gotos[0].Keys) {
      assert Hangs(gotos, paths, parents, n);
    }
  }

  /** Linking the children of `node`, those on `todo` still to come. */
  ghost predicate Linking(patterns: seq<Pattern>, gotos: seq<map<char, nat>>, paths: seq<string>, parents: seq<nat>,
      fail: seq<nat>, out: seq<seq<Output>>, queue: seq<nat>, done: set<nat>, processed: set<nat>,
      node: nat, todo: set<char>)
  {
    && IsTrie(gotos, paths, parents) && |fail| == |out| == |paths|
    && LiteralsSpelled(patterns, paths)
    && node < |paths| && todo <= gotos[node].Keys && node in processed
    && Finals(patterns, paths, fail, out, done)
    && Opened(parents, done, processed, Children(gotos[node], todo))
    && Queued(paths, queue, done, processed, |paths[node]|)
    && (forall n :: 0 <= n < |paths| && |paths[n]| <= |paths[node]| ==> n in done)
  }

  lemma LinkingStarts(patterns: seq<Pattern>, gotos: seq<map<char, nat>>, paths: seq<string>, parents: seq<nat>,
      fail: seq<nat>, out: seq<seq<Output>>)
    requires IsTrie(gotos, paths, parents) && |fail| == |out| == |paths| && fail[0] == 0
    requires LiteralsSpelled(patterns, paths)
    requires forall n :: 0 <= n < |out| ==> out[n] == Own(patterns, paths[n])
    ensures Linking(patterns, gotos, paths, parents, fail, out, [], {0}, {0}, 0, gotos[0].Keys)
  {
    OwnOfEmpty(patterns);
    RootOpened(gotos, paths, parents);
    forall n | 0 < n < |paths| ensures paths[n] != "" {
      assert Hangs(gotos, paths, parents, n);
    }
  }

  /** The child on `ch` of the node being expanded is a node. */
  lemma ChildInRange(patterns: seq<Pattern>, gotos: seq<map<char, nat>>, paths: seq<string>, parents: seq<nat>,
      fail: seq<nat>, out: seq<seq<Output>>, queue: seq<nat>, done: set<nat>, processed: set<nat>,
      node: nat, todo: set<char>, ch: char)
    requires node < |gotos| && ch in gotos[node]
    requires Linking(patterns, gotos, paths, parents, fail, out, queue, done, processed, node, todo)
    ensures gotos[node][ch] < |paths| == |fail| == |out|
  {
    hide Finals, Opened, Queued, LiteralsSpelled;
    assert EdgeOk(gotos, paths, parents, node, ch);
  }

  lemma LinkingStep(patterns: seq<Pattern>, gotos: seq<map<char, nat>>, paths: seq<string>, parents: seq<nat>,
      fail: seq<nat>, out: seq<seq<Output>>, queue: seq<nat>, done: set<nat>, processed: set<nat>,
      node: nat, todo: set<char>, ch: char, nxt: nat, link: nat)
    requires node < |gotos| && ch in gotos[node] && ch in todo && nxt == gotos[node][ch]
    requires nxt < |fail| == |out| && link < |out| == |paths|
    requires Linking(patterns, gotos, paths, parents, fail, out, queue, done, processed, node, todo)
    requires link in done && "" in paths && paths[link] == LongestSuffix(paths, (paths[node] + [ch])[1..])
    ensures Linking(patterns, gotos, paths, parents, fail[nxt := link], out[nxt := out[nxt] + out[link]],
                    queue + [nxt], done + {nxt}, processed, node, todo - {ch})
  {
    OpenChild(gotos, paths, parents, queue, done, processed, node, todo, ch);
    LinkNode(patterns, paths, fail, out, done, nxt, link);
  }

  lemma LinkingRootStep(patterns: seq<Pattern>, gotos: seq<map<char, nat>>, paths: seq<string>, parents: seq<nat>,
      fail: seq<nat>, out: seq<seq<Output>>, queue: seq<nat>, done: set<nat>, todo: set<char>, ch: char)
    requires Linking(patterns, gotos, paths, parents, fail, out, queue, done, {0}, 0, todo)
    requires ch in todo
    ensures var nxt := gotos[0][ch];
      && nxt < |fail|
      && Linking(patterns, gotos, paths, parents, fail[nxt := 0], out, queue + [nxt], done + {nxt}, {0}, 0, todo - {ch})
  {
    assert Linked(patterns, paths, fail, out, 0);
    ChildInRange(patterns, gotos, paths, parents, fail, out, queue, done, {0}, 0, todo, ch);
    LinkingStep(patterns, gotos, paths, parents, fail, out, queue, done, {0}, 0, todo, ch, gotos[0][ch], 0);
    var nxt := gotos[0][ch];
    assert out[0] == [];
    assert out[nxt] + out[0] == out[nxt];
    assert out[nxt := out[nxt] + out[0]] == out;
  }

  /** Every node no deeper than `node`'s failure link already has its own. */
  lemma LinksBehind(patterns: seq<Pattern>, gotos: seq<map<char, nat>>, paths: seq<string>, parents: seq<nat>,
      fail: seq<nat>, out: seq<seq<Output>>, queue: seq<nat>, done: set<nat>, processed: set<nat>,
      node: nat, todo: set<char>)
    requires Linking(patterns, gotos, paths, parents, fail, out, queue, done, processed, node, todo) && node != 0
    ensures IsTrie(gotos, paths, parents) && |fail| == |paths| && node < |paths| && fail[node] < |paths|
    ensures forall n :: 0 <= n < |paths| && |paths[n]| <= |paths[fail[node]]| ==> FailOk(paths, fail, n)
  {
    assert Linked(patterns, paths, fail, out, node);
    forall n | 0 <= n < |paths| && |paths[n]| <= |paths[fail[node]]| ensures FailOk(paths, fail, n) {
      assert Linked(patterns, paths, fail, out, n);
    }
  }

  /** Chasing from `node`'s failure link finds the failure link of its child. */
  lemma LinkFound(patterns: seq<Pattern>, gotos: seq<map<char, nat>>, paths: seq<string>, parents: seq<nat>,
      fail: seq<nat>, out: seq<seq<Output>>, queue: seq<nat>, done: set<nat>, processed: set<nat>,
      node: nat, todo: set<char>, ch: char, link: nat)
    requires Linking(patterns, gotos, paths, parents, fail, out, queue, done, processed, node, todo) && node != 0
    requires fail[node] < |paths| && link < |paths| && paths[link] == Chase(paths, paths[fail[node]], ch)
    ensures "" in paths && paths[link] == LongestSuffix(paths, (paths[node] + [ch])[1..]) && link in done
  {
    hide LongestSuffix, Chase, Opened, Queued;
    assert Linked(patterns, paths, fail, out, node);
    TrieStep(gotos, paths, parents, paths[node][1..], ch);
    assert (paths[node] + [ch])[1..] == paths[node][1..] + [ch];
  }

  /** The edges out of a node, as characters. */
  function EdgesOf(gotos: seq<map<char, nat>>, n: nat): set<char> {
    if n < |gotos| then gotos[n].Keys else {}
  }

  /** Taking the next node off the queue, with all its edges still to follow. */
  lemma LinkingNext(patterns: seq<Pattern>, gotos: seq<map<char, nat>>, paths: seq<string>, parents: seq<nat>,
      fail: seq<nat>, out: seq<seq<Output>>, next: nat, rest: seq<nat>, done: set<nat>, processed: set<nat>, node: nat)
    requires Linking(patterns, gotos, paths, parents, fail, out, [next] + rest, done, processed, node, {})
    ensures next != 0 && next < |gotos| && next !in processed
    ensures Linking(patterns, gotos, paths, parents, fail, out, rest, done, processed + {next}, next, EdgesOf(gotos, next))
  {
    StartNode(gotos, paths, parents, [next] + rest, done, processed, |paths[node]|);
    assert ([next] + rest)[1..] == rest;
  }

  lemma LinkingEnds(patterns: seq<Pattern>, gotos: seq<map<char, nat>>, paths: seq<string>, parents: seq<nat>,
      fail: seq<nat>, out: seq<seq<Output>>, done: set<nat>, processed: set<nat>, node: nat)
    requires Linking(patterns, gotos, paths, parents, fail, out, [], done, processed, node, {})
    ensures IsTrie(gotos, paths, parents) && |fail| == |out| == |paths| && LiteralsSpelled(patterns, paths)
    ensures forall n :: 0 <= n < |paths| ==> Linked(patterns, paths, fail, out, n)
  {
    forall n | 0 <= n < |paths| ensures Linked(patterns, paths, fail, out, n) {
      ShallowIsDone(gotos, paths, parents, [], done, processed, |paths[node]|, n);
    }
  }

  /** The inner scan loop: one hit per output of the node reached. */
  method Report(outputs: seq<Output>, end: nat, before: seq<Hit>) returns (hits: seq<Hit>)
    requires forall o :: o in outputs ==> o.length <= end
    ensures hits == before + HitsEndingAt(outputs, end)
  {
    hits := before;
    for k := 0 to |outputs|
      invariant hits == before + HitsEndingAt(outputs, end)[..k]
    {
      hits := hits + [Hit(end - outputs[k].length, end, outputs[k].replacement, outputs[k].ruleId)];
    }
  }

  class Aho {
    var gotos: seq<map<char, nat>>
    var fail: seq<nat>
    var out: seq<seq<Output>>
    ghost var paths: seq<string>
    ghost var parents: seq<nat>

    /** A trie whose nodes hold their own outputs only: the state between `Add` calls. */
    ghost predicate Growing(patterns: seq<Pattern>)
      reads this
    {
      && IsTrie(gotos, paths, parents)
      && |fail| == |out| == |paths|
      && (forall n :: 0 <= n < |fail| ==> fail[n] == 0)
      && LiteralsSpelled(patterns, paths)
      && (forall n :: 0 <= n < |out| ==> out[n] == Own(patterns, paths[n]))
    }

    /** The finished automaton: every failure link is the longest proper suffix the trie
        spells, and every node holds the outputs of all its suffixes. */
    ghost predicate Built(patterns: seq<Pattern>)
      reads this
    {
      && IsTrie(gotos, paths, parents)
      && |fail| == |out| == |paths|
      && LiteralsSpelled(patterns, paths)
      && (forall n :: 0 <= n < |paths| ==> Linked(patterns, paths, fail, out, n))
    }

    constructor (patterns: seq<Pattern>)
      requires forall p :: p in patterns ==> p.literal != ""
      ensures Built(patterns)
    {
      gotos, fail, out := [map[]], [0], [[]];
      paths, parents := [""], [0];
      new;
      for k := 0 to |patterns|
        invariant Growing(patterns[..k])
      {
        Add(patterns[..k], patterns[k]);
        assert patterns[..k] + [patterns[k]] == patterns[..k + 1];
      }
      assert patterns[..|patterns|] == patterns;
      Build(patterns);
    }

    method Add(ghost patterns: seq<Pattern>, pat: Pattern)
      requires Growing(patterns) && pat.literal != ""
      modifies this
      ensures Growing(patterns + [pat])
    {
      var node := 0;
      for k := 0 to |pat.literal|
        invariant Growing(patterns)
        invariant 0 <= node < |paths| && paths[node] == pat.literal[..k]
      {
        var ch := pat.literal[k];
        assert pat.literal[..k + 1] == pat.literal[..k] + [ch];
        if ch !in gotos[node] {
          NewWordHasNoOutput(patterns, node, ch);
          Extend(node, ch);
        }
        node := gotos[node][ch];
      }
      assert pat.literal[..|pat.literal|] == pat.literal;
      ghost var before := out;
      out := out[node := out[node] + [Output(|pat.literal|, pat.replacement, pat.ruleId)]];
      assert (patterns + [pat])[..|patterns|] == patterns;
      forall n | 0 <= n < |out| ensures out[n] == Own(patterns + [pat], paths[n]) {
        if n != node && paths[n] == paths[node] {
          PathsInjective(gotos, paths, parents, n, node);
        }
      }
    }

    lemma NewWordHasNoOutput(patterns: seq<Pattern>, node: nat, ch: char)
      requires Growing(patterns) && node < |paths| && ch !in gotos[node]
      ensures Own(patterns, paths[node] + [ch]) == []
    {
      EdgeIffWord(gotos, paths, parents, node, ch);
      OwnOfUnknown(patterns, paths, paths[node] + [ch]);
    }

    method Extend(node: nat, ch: char)
      requires IsTrie(gotos, paths, parents) && |fail| == |out| == |paths|
      requires node < |paths| && ch !in gotos[node]
      modifies this
      ensures IsTrie(gotos, paths, parents)
      ensures fail == old(fail) + [0] && out == old(out) + [[]]
      ensures paths == old(paths) + [old(paths)[node] + [ch]]
      ensures |gotos| == |paths| && ch in gotos[node] && gotos[node][ch] == |old(gotos)|
    {
      var nxt := |gotos|;
      gotos := gotos + [map[]];
      fail := fail + [0];
      out := out + [[]];
      gotos := gotos[node := gotos[node][ch := nxt]];
      paths := paths + [paths[node] + [ch]];
      parents := parents + [node];
      TrieExtended(old(gotos), old(paths), old(parents), node, ch);
    }

    /** The link-chasing loop that both construction and scanning run. */
    method Follow(from: nat, ch: char) returns (to: nat)
      requires IsTrie(gotos, paths, parents) && |fail| == |paths| && from < |paths|
      requires forall n :: 0 <= n < |paths| && |paths[n]| <= |paths[from]| ==> FailOk(paths, fail, n)
      ensures to < |paths| && paths[to] == Chase(paths, paths[from], ch)
    {
      var node := from;
      while node != 0 && ch !in gotos[node]
        invariant 0 <= node < |paths| && |paths[node]| <= |paths[from]|
        invariant Chase(paths, paths[node], ch) == Chase(paths, paths[from], ch)
        decreases |paths[node]|
      {
        EdgeIffWord(gotos, paths, parents, node, ch);
        assert FailOk(paths, fail, node);
        node := fail[node];
      }
      EdgeIffWord(gotos, paths, parents, node, ch);
      to := if ch in gotos[node] then gotos[node][ch] else 0;
    }

    /** Sets every failure link and merges outputs along it, in breadth-first order. */
    method Build(ghost patterns: seq<Pattern>)
      requires Growing(patterns)
      modifies this`fail, this`out
      ensures Built(patterns)
    {
      var queue: seq<nat>; ghost var done: set<nat>;
      queue, done := LinkRoot(patterns);
      ghost var processed: set<nat> := {0};
      ghost var node: nat := 0;
      hide *;
      while queue != []
        invariant Linking(patterns, gotos, paths, parents, fail, out, queue, done, processed, node, {})
        decreases Below(|gotos|) - processed
      {
        ghost var before := processed;
        node, queue, done, processed := LinkNext(patterns, queue, done, processed, node);
      }
      Finished(patterns, done, processed, node);
    }

    lemma Finished(patterns: seq<Pattern>, done: set<nat>, processed: set<nat>, node: nat)
      requires Linking(patterns, gotos, paths, parents, fail, out, [], done, processed, node, {})
      ensures Built(patterns)
    {
      hide Linking;
      LinkingEnds(patterns, gotos, paths, parents, fail, out, done, processed, node);
    }

    /** The first loop: the root's children fail to the root and merge nothing. */
    method LinkRoot(ghost patterns: seq<Pattern>) returns (queue: seq<nat>, ghost done: set<nat>)
      requires Growing(patterns)
      modifies this`fail
      ensures Linking(patterns, gotos, paths, parents, fail, out, queue, done, {0}, 0, {})
    {
      hide Linking;
      queue, done := [], {0};
      assert Growing(patterns);
      LinkingStarts(patterns, gotos, paths, parents, fail, out);
      var todo := gotos[0].Keys;
      while todo != {}
        invariant todo <= gotos[0].Keys
        invariant Linking(patterns, gotos, paths, parents, fail, out, queue, done, {0}, 0, todo)
      {
        var ch :| ch in todo;
        var nxt := gotos[0][ch];
        LinkingRootStep(patterns, gotos, paths, parents, fail, out, queue, done, todo, ch);
        fail := fail[nxt := 0];
        queue, done, todo := queue + [nxt], done + {nxt}, todo - {ch};
      }
    }

    /** The second loop's body: takes the next node off the queue and links its children. */
    method LinkNext(ghost patterns: seq<Pattern>, queue0: seq<nat>, ghost done0: set<nat>,
            ghost processed0: set<nat>, ghost last: nat)
      returns (node: nat, queue: seq<nat>, ghost done: set<nat>, ghost processed: set<nat>)
      requires queue0 != [] && Linking(patterns, gotos, paths, parents, fail, out, queue0, done0, processed0, last, {})
      modifies this`fail, this`out
      ensures node < |gotos| && node !in processed0 && processed == processed0 + {node}
      ensures Linking(patterns, gotos, paths, parents, fail, out, queue, done, processed, node, {})
    {
      hide *;
      node := queue0[0];
      assert queue0 == [node] + queue0[1..];
      LinkingNext(patterns, gotos, paths, parents, fail, out, node, queue0[1..], done0, processed0, last);
      processed := processed0 + {node};
      queue, done := LinkChildren(patterns, queue0[1..], done0, processed, node);
    }

    /** Every child of one node. */
    method LinkChildren(ghost patterns: seq<Pattern>, queue0: seq<nat>, ghost done0: set<nat>,
                        ghost processed: set<nat>, node: nat) returns (queue: seq<nat>, ghost done: set<nat>)
      requires node != 0 && node < |gotos|
      requires Linking(patterns, gotos, paths, parents, fail, out, queue0, done0, processed, node, EdgesOf(gotos, node))
      modifies this`fail, this`out
      ensures Linking(patterns, gotos, paths, parents, fail, out, queue, done, processed, node, {})
    {
      hide Linking;
      queue, done := queue0, done0;
      var todo := gotos[node].Keys;
      while todo != {}
        invariant todo <= gotos[node].Keys
        invariant Linking(patterns, gotos, paths, parents, fail, out, queue, done, processed, node, todo)
      {
        var ch :| ch in todo;
        var nxt := gotos[node][ch];
        var link := LinkFor(patterns, queue, done, processed, node, todo, ch);
        ChildInRange(patterns, gotos, paths, parents, fail, out, queue, done, processed, node, todo, ch);
        LinkingStep(patterns, gotos, paths, parents, fail, out, queue, done, processed, node, todo, ch, nxt, link);
        fail := fail[nxt := link];
        out := out[nxt := out[nxt] + out[link]];
        queue, done, todo := queue + [nxt], done + {nxt}, todo - {ch};
      }
    }

    /** The failure link of the child of `node` on `ch`. */
    method LinkFor(ghost patterns: seq<Pattern>, ghost queue: seq<nat>, ghost done: set<nat>,
                   ghost processed: set<nat>, node: nat, ghost todo: set<char>, ch: char) returns (link: nat)
      requires node != 0
      requires Linking(patterns, gotos, paths, parents, fail, out, queue, done, processed, node, todo)
      ensures link < |paths| && link in done && "" in paths && node < |paths|
      ensures paths[link] == LongestSuffix(paths, (paths[node] + [ch])[1..])
    {
      hide Linking;
      LinksBehind(patterns, gotos, paths, parents, fail, out, queue, done, processed, node, todo);
      link := Follow(fail[node], ch);
      LinkFound(patterns, gotos, paths, parents, fail, out, queue, done, processed, node, todo, ch, link);
    }

    /** Reports every occurrence of every pattern, and nothing else. */
    method Scan(ghost patterns: seq<Pattern>, text: string) returns (hits: seq<Hit>)
      requires Built(patterns)
      ensures hits == AllHits(patterns, text)
    {
      hits := [];
      var node := 0;
      AtRoot(gotos, paths, parents);
      assert text[..0] == "";
      for i := 0 to |text|
        invariant 0 <= node < |paths| && paths[node] == LongestSuffix(paths, text[..i])
        invariant hits == AllHits(patterns, text[..i])
      {
        hide LongestSuffix, Chase, AllHits, HitsEndingAt, SuffixOutputs, IsTrie, LiteralsSpelled;
        TrieStep(gotos, paths, parents, text[..i], text[i]);
        forall n | 0 <= n < |paths| ensures FailOk(paths, fail, n) {
          assert Linked(patterns, paths, fail, out, n);
        }
        hide FailOk;
        node := Follow(node, text[i]);
        assert Linked(patterns, paths, fail, out, node);
        HitsStep(patterns, paths, text, i);
        hits := Report(out[node], i + 1, hits);
      }
      assert text[..|text|] == text;
    }
  }

  lemma AtRoot(gotos: seq<map<char, nat>>, paths: seq<string>, parents: seq<nat>)
    requires IsTrie(gotos, paths, parents)
    ensures "" in paths && paths[0] == LongestSuffix(paths, "")
  {
  }

  /** The hits ending at the next character are the outputs of the node reached there. */
  lemma HitsStep(patterns: seq<Pattern>, paths: seq<string>, text: string, i: nat)
    requires i < |text| && "" in paths && LiteralsSpelled(patterns, paths)
    ensures text[..i + 1] == text[..i] + [text[i]]
    ensures var outputs := SuffixOutputs(patterns, LongestSuffix(paths, text[..i + 1]));
      && (forall o :: o in outputs ==> o.length <= i + 1)
      && AllHits(patterns, text[..i + 1]) == AllHits(patterns, text[..i]) + HitsEndingAt(outputs, i + 1)
  {
    hide LongestSuffix, HitsEndingAt;
    SuffixOutputsSkip(patterns, paths, text[..i + 1]);
    assert text[..i + 1][..i] == text[..i];
  }
}
