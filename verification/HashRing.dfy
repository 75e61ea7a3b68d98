// Consistent hashing with replicas, and the ring of Redis clients built on it.
module HashRing {
  import Keys

  // ---------- ring points ----------

  // Where replica i of a node sits on the ring. The hash function is arbitrary.
  function PointOf(hash: string -> nat, node: string, i: nat): nat
  {
    hash(Keys.Itoa(i) + node)
  }

  // Owner of every ring point after nodes were added in this order: where points collide, the latest node wins.
  function Owners(hash: string -> nat, replicas: nat, nodes: seq<string>): map<nat, string>
    decreases |nodes|
  {
    if nodes == [] then map[]
    else
      var last := nodes[|nodes| - 1];
      Owners(hash, replicas, nodes[..|nodes| - 1]) + NodePoints(hash, replicas, last)
  }

  function NodePoints(hash: string -> nat, replicas: nat, node: string): (m: map<nat, string>)
    ensures forall p :: p in m <==> exists i :: 0 <= i < replicas && p == PointOf(hash, node, i)
    ensures forall p :: p in m ==> m[p] == node
  {
    if replicas == 0 then map[]
    else
      var m := NodePoints(hash, replicas - 1, node);
      var p := PointOf(hash, node, replicas - 1);
      m[p := node]
  }

  // No two replicas of a node hash the same string, so a hash without collisions gives them points of their own.
  lemma {:induction false} ReplicasApart(hash: string -> nat, replicas: nat, node: string)
    requires forall a, b :: hash(a) == hash(b) ==> a == b
    ensures |NodePoints(hash, replicas, node)| == replicas
    decreases replicas
  {
    hide PointOf;
    if replicas > 0 {
      var i := replicas - 1;
      ReplicasApart(hash, i, node);
      forall j: nat | j < i
        ensures PointOf(hash, node, j) != PointOf(hash, node, i)
      {
        PointsApart(hash, node, i, j);
      }
      var before, p := NodePoints(hash, i, node), PointOf(hash, node, i);
      assert NodePoints(hash, replicas, node) == before[p := node];
      hide NodePoints;
      assert p !in before;
      assert before[p := node].Keys == before.Keys + {p};
    }
  }

  lemma PointsApart(hash: string -> nat, node: string, i: nat, j: nat)
    requires i != j && forall a, b :: hash(a) == hash(b) ==> a == b
    ensures PointOf(hash, node, i) != PointOf(hash, node, j)
  {
    hide Keys.Itoa;
    SameReplica(node, i, j);
  }

  lemma SameReplica(node: string, i: nat, j: nat)
    ensures Keys.Itoa(i) + node == Keys.Itoa(j) + node ==> i == j
  {
    hide Keys.Itoa, Keys.Atoi;
    var a, b := Keys.Itoa(i), Keys.Itoa(j);
    if a + node == b + node {
      assert |a| == |b|;
      assert a == (a + node)[..|a|] && b == (b + node)[..|b|];
      Keys.AtoiItoa(i);
      Keys.AtoiItoa(j);
    }
  }

  // The point that serves hash h: the least point not before h, or the least of all points when h is behind them all.
  ghost predicate Serves(points: set<nat>, h: nat, p: nat)
  {
    && p in points
    && (if exists q :: q in points && q >= h then p >= h && forall q :: q in points && q >= h ==> p <= q
        else forall q :: q in points ==> p <= q)
  }

  lemma ServesUnique(points: set<nat>, h: nat, p: nat, p': nat)
    requires Serves(points, h, p) && Serves(points, h, p')
    ensures p == p'
  {
  }

  // Adding points moves a key only to one of the added points.
  lemma AddedPoints(old_: set<nat>, added: set<nat>, h: nat, p: nat, p': nat)
    requires Serves(old_, h, p) && Serves(old_ + added, h, p')
    ensures p' == p || p' in added
  {
    if p' !in added {
      assert Serves(old_, h, p') by {
        assert p' in old_;
        if exists q :: q in old_ && q >= h {
          var q :| q in old_ && q >= h;
          assert q in old_ + added;
        } else {
          forall q | q in old_
            ensures p' <= q
          {
            assert p in old_ + added;
            assert q in old_ + added;
          }
        }
      }
      ServesUnique(old_, h, p, p');
    }
  }

  lemma MapsAssociate(a: map<nat, string>, b: map<nat, string>, c: map<nat, string>)
    ensures (a + b) + c == a + (b + c)
  {
  }

  lemma {:induction false} OwnersAppend(hash: string -> nat, replicas: nat, nodes: seq<string>, more: seq<string>)
    ensures Owners(hash, replicas, nodes + more) == Owners(hash, replicas, nodes) + Owners(hash, replicas, more)
    decreases |more|
  {
    if more == [] {
      assert nodes + more == nodes;
    } else {
      hide NodePoints, Owners;
      var init, last := more[..|more| - 1], more[|more| - 1];
      assert nodes + more == (nodes + init) + [last];
      assert more == init + [last];
      OwnersSnoc(hash, replicas, nodes + init, last);
      OwnersSnoc(hash, replicas, init, last);
      OwnersAppend(hash, replicas, nodes, init);
      MapsAssociate(Owners(hash, replicas, nodes), Owners(hash, replicas, init), NodePoints(hash, replicas, last));
    }
  }

  lemma {:induction false} OwnersAreNodes(hash: string -> nat, replicas: nat, nodes: seq<string>)
    ensures forall p :: p in Owners(hash, replicas, nodes) ==> Owners(hash, replicas, nodes)[p] in nodes
    ensures nodes != [] && replicas > 0 ==> Owners(hash, replicas, nodes) != map[]
    decreases |nodes|
  {
    hide PointOf, NodePoints;
    if nodes != [] {
      var init, last := nodes[..|nodes| - 1], nodes[|nodes| - 1];
      var before, points := Owners(hash, replicas, init), NodePoints(hash, replicas, last);
      assert Owners(hash, replicas, nodes) == before + points;
      OwnersAreNodes(hash, replicas, init);
      hide Owners;
      assert forall node :: node in init ==> node in nodes;
      assert last in nodes;
      if replicas > 0 {
        assert PointOf(hash, last, 0) in points;
        assert PointOf(hash, last, 0) in before + points;
      }
    }
  }

  // The points of the node that was added last are all its own.
  lemma LatestWins(hash: string -> nat, replicas: nat, nodes: seq<string>, i: nat)
    requires nodes != [] && i < replicas
    ensures var p, last := PointOf(hash, nodes[|nodes| - 1], i), nodes[|nodes| - 1];
      p in Owners(hash, replicas, nodes) && Owners(hash, replicas, nodes)[p] == last
  {
    hide PointOf, NodePoints;
    var last := nodes[|nodes| - 1];
    assert PointOf(hash, last, i) in NodePoints(hash, replicas, last);
  }

  // What Get answers on a ring to which the nodes were added.
  ghost predicate Answers(hash: string -> nat, replicas: nat, nodes: seq<string>, key: string, node: string)
  {
    var owners := Owners(hash, replicas, nodes);
    if owners == map[] then node == ""
    else exists p :: Serves(owners.Keys, hash(key), p) && node == owners[p]
  }

  lemma AnswersUnique(hash: string -> nat, replicas: nat, nodes: seq<string>, key: string, a: string, b: string)
    requires Answers(hash, replicas, nodes, key, a) && Answers(hash, replicas, nodes, key, b)
    ensures a == b
  {
    var owners := Owners(hash, replicas, nodes);
    if owners != map[] {
      var p :| Serves(owners.Keys, hash(key), p) && a == owners[p];
      var q :| Serves(owners.Keys, hash(key), q) && b == owners[q];
      ServesUnique(owners.Keys, hash(key), p, q);
    }
  }

  lemma AnswerIsNode(hash: string -> nat, replicas: nat, nodes: seq<string>, key: string, node: string)
    requires replicas > 0 && nodes != [] && Answers(hash, replicas, nodes, key, node)
    ensures node in nodes
  {
    hide Owners;
    OwnersAreNodes(hash, replicas, nodes);
  }

  // Adding nodes to a ring that has points changes an answer only to one of the added nodes.
  lemma OnlyToAdded(hash: string -> nat, replicas: nat, nodes: seq<string>, more: seq<string>, key: string,
                    a: string, b: string)
    requires Owners(hash, replicas, nodes) != map[]
    requires Answers(hash, replicas, nodes, key, a) && Answers(hash, replicas, nodes + more, key, b)
    ensures b == a || b in more
  {
    var before, added := Owners(hash, replicas, nodes), Owners(hash, replicas, more);
    var after := Owners(hash, replicas, nodes + more);
    OwnersAppend(hash, replicas, nodes, more);
    OwnersAreNodes(hash, replicas, more);
    var p :| Serves(before.Keys, hash(key), p) && a == before[p];
    assert p in after;
    var q :| Serves(after.Keys, hash(key), q) && b == after[q];
    assert after.Keys == before.Keys + added.Keys;
    AddedPoints(before.Keys, added.Keys, hash(key), p, q);
  }

  // ---------- sort.Ints and sort.Search ----------

  predicate Sorted(s: seq<nat>) { forall i, j :: 0 <= i < j < |s| ==> s[i] <= s[j] }

  method Insert(s: seq<nat>, x: nat) returns (r: seq<nat>)
    requires Sorted(s)
    ensures Sorted(r) && multiset(r) == multiset(s) + multiset{x}
  {
    var i := SearchInts(s, x);
    r := s[..i] + [x] + s[i..];
    assert s == s[..i] + s[i..];
  }

  method SortInts(s: seq<nat>) returns (r: seq<nat>)
    ensures Sorted(r) && multiset(r) == multiset(s)
  {
    r := [];
    for i := 0 to |s|
      invariant Sorted(r) && multiset(r) == multiset(s[..i])
    {
      assert s[..i + 1] == s[..i] + [s[i]];
      r := Insert(r, s[i]);
    }
    assert s[..|s|] == s;
  }

  // Binary search for the first element not below h.
  method SearchInts(s: seq<nat>, h: nat) returns (idx: nat)
    requires Sorted(s)
    ensures idx <= |s|
    ensures forall i :: 0 <= i < idx ==> s[i] < h
    ensures forall i :: idx <= i < |s| ==> s[i] >= h
  {
    var i, j := 0, |s|;
    while i < j
      invariant 0 <= i <= j <= |s|
      invariant forall k :: 0 <= k < i ==> s[k] < h
      invariant forall k :: j <= k < |s| ==> s[k] >= h
    {
      var m := (i + j) / 2;
      if s[m] >= h {
        j := m;
      } else {
        i := m + 1;
      }
    }
    idx := i;
  }

  // ---------- the ring object ----------

  lemma NoPoints(hash: string -> nat, node: string, m: map<nat, string>)
    ensures m == m + NodePoints(hash, 0, node)
  {
  }

  lemma OnePoint(hash: string -> nat, i: nat, node: string, m: map<nat, string>)
    ensures (m + NodePoints(hash, i, node))[PointOf(hash, node, i) := node] == m + NodePoints(hash, i + 1, node)
  {
  }

  lemma OwnersSnoc(hash: string -> nat, replicas: nat, nodes: seq<string>, node: string)
    ensures Owners(hash, replicas, nodes + [node]) == Owners(hash, replicas, nodes) + NodePoints(hash, replicas, node)
  {
    var all := nodes + [node];
    assert all[..|all| - 1] == nodes;
  }

  class ConsistentHash {
    const hash: string -> nat
    const replicas: nat
    var keys: seq<nat>
    var hashMap: map<nat, string>
    ghost var nodes: seq<string>

    ghost predicate Valid()
      reads this
    {
      && hashMap == Owners(hash, replicas, nodes)
      && Sorted(keys)
      && (forall p :: p in keys <==> p in hashMap)
    }

    constructor (replicas: nat, hash: string -> nat)
      ensures Valid() && nodes == [] && this.replicas == replicas && this.hash == hash
    {
      this.hash, this.replicas := hash, replicas;
      keys, hashMap, nodes := [], map[], [];
    }

    // The replicas of one node: points appended, owners overwritten.
    method AddNode(node: string)
      modifies this`keys, this`hashMap
      requires forall p :: p in keys <==> p in hashMap
      ensures hashMap == old(hashMap) + NodePoints(hash, replicas, node)
      ensures forall p :: p in keys <==> p in hashMap
    {
      ghost var before := hashMap;
      NoPoints(hash, node, before);
      for i := 0 to replicas
        invariant hashMap == before + NodePoints(hash, i, node)
        invariant forall p :: p in keys <==> p in hashMap
      {
        var h := PointOf(hash, node, i);
        OnePoint(hash, i, node, before);
        keys := keys + [h];
        hashMap := hashMap[h := node];
      }
    }

    method Add(added: seq<string>)
      requires Valid()
      modifies this
      ensures Valid() && nodes == old(nodes) + added
    {
      hide Owners, NodePoints, PointOf;
      for k := 0 to |added|
        invariant nodes == old(nodes) + added[..k]
        invariant hashMap == Owners(hash, replicas, nodes)
        invariant forall p :: p in keys <==> p in hashMap
      {
        AddNode(added[k]);
        OwnersSnoc(hash, replicas, nodes, added[k]);
        assert added[..k + 1] == added[..k] + [added[k]];
        nodes := nodes + [added[k]];
      }
      assert added[..|added|] == added;
      ghost var unsorted := keys;
      keys := SortInts(keys);
      forall p
        ensures p in keys <==> p in unsorted
      {
        assert p in multiset(keys) <==> p in multiset(unsorted);
      }
    }

    method Get(key: string) returns (node: string)
      requires Valid()
      ensures Answers(hash, replicas, nodes, key, node)
    {
      hide Owners, Serves;
      if |keys| == 0 {
        assert hashMap == map[] by {
          assert forall p :: p !in hashMap;
        }
        return "";
      }
      assert keys[0] in keys;
      var h := hash(key);
      var idx := SearchInts(keys, h);
      if idx == |keys| {
        idx := 0;
      }
      var p := keys[idx];
      assert p in keys;
      node := hashMap[p];
      FirstServes(keys, hashMap.Keys, h, idx);
    }
  }

  // The first sorted point not before the hash serves it, or the very first one when there is none.
  lemma FirstServes(keys: seq<nat>, points: set<nat>, h: nat, idx: nat)
    requires Sorted(keys) && (forall p :: p in keys <==> p in points)
    requires idx < |keys| && (keys[idx] >= h || (idx == 0 && forall i :: 0 <= i < |keys| ==> keys[i] < h))
    requires keys[idx] >= h ==> forall i :: 0 <= i < idx ==> keys[i] < h
    ensures Serves(points, h, keys[idx])
  {
    forall q | q in points
      ensures q >= h ==> keys[idx] >= h && keys[idx] <= q
      ensures keys[idx] < h ==> keys[idx] <= q
    {
      assert q in keys;
      var j :| 0 <= j < |keys| && keys[j] == q;
    }
    assert keys[idx] in keys;
  }

  // ---------- the ring of Redis clients ----------

  // The part of a key that is hashed: what stands between its first '{' and the next '}', if anything does.
  function IndexOf(s: string, c: char): (i: int)
    ensures -1 <= i < |s|
    ensures i >= 0 ==> s[i] == c && forall j :: 0 <= j < i ==> s[j] != c
    ensures i == -1 ==> forall j :: 0 <= j < |s| ==> s[j] != c
  {
    if s == [] then -1
    else if s[0] == c then 0
    else
      var i := IndexOf(s[1..], c);
      if i == -1 then -1 else i + 1
  }

  function HashedPart(key: string): string
  {
    var s := IndexOf(key, '{');
    if s > -1 then
      var e := IndexOf(key[s + 1..], '}');
      if e > 0 then key[s + 1..s + e + 1] else key
    else key
  }

  // The first '{' of the key is at s, the first '}' behind it at e, and something stands between them.
  predicate Braced(key: string, s: nat, e: nat)
  {
    && s + 1 < e < |key| && key[s] == '{' && key[e] == '}'
    && (forall j :: 0 <= j < s ==> key[j] != '{') && (forall j :: s < j < e ==> key[j] != '}')
  }

  // What is hashed stands strictly between such braces, and is the whole key if there are none.
  lemma HashedPartIs(key: string)
    ensures forall s: nat, e: nat :: Braced(key, s, e) ==> HashedPart(key) == key[s + 1..e]
    ensures (forall s: nat, e: nat :: !Braced(key, s, e)) ==> HashedPart(key) == key
  {
    hide IndexOf;
    forall s: nat, e: nat | Braced(key, s, e)
      ensures HashedPart(key) == key[s + 1..e]
    {
      IndexUnique(key, '{', s);
      IndexUnique(key[s + 1..], '}', e - s - 1);
    }
    var s := IndexOf(key, '{');
    if s > -1 {
      var e := IndexOf(key[s + 1..], '}');
      if e > 0 {
        assert forall j :: s < j < s + e + 1 ==> key[j] == key[s + 1..][j - s - 1];
        assert Braced(key, s, s + e + 1);
      }
    }
  }

  // All metadata keys of a path hash like their common prefix, so they live on one instance.
  lemma MetadataTogether(path: string)
    requires path != "" && path[0] != '}'
    ensures HashedPart(Keys.ModeKey(path)) == HashedPart(Keys.Prefix(path)) == HashedPart(Keys.ChildrenKey(path))
  {
    hide IndexOf, HashedPart;
    PrefixDecides(path, "");
    PrefixDecides(path, ":mode");
    PrefixDecides(path, ":children");
    assert Keys.Prefix(path) + "" == Keys.Prefix(path);
  }

  lemma PrefixDecides(path: string, suffix: string)
    requires path != "" && path[0] != '}'
    ensures var e := IndexOf(path + "}", '}');
      0 < e <= |path| && HashedPart(Keys.Prefix(path) + suffix) == path[..e]
  {
    hide IndexOf, Keys.Prefix;
    var body := path + "}";
    var e := IndexOf(body, '}');
    assert body[|path|] == '}' && body[0] == path[0];
    assert e != -1;
    BracedKey(path, suffix, e);
  }

  lemma {:induction false} IndexUnique(s: string, c: char, i: nat)
    requires i < |s| && s[i] == c && forall j :: 0 <= j < i ==> s[j] != c
    ensures IndexOf(s, c) == i
    decreases i
  {
    if i > 0 {
      assert s[0] != c;
      IndexUnique(s[1..], c, i - 1);
    }
  }

  lemma BracedKey(path: string, suffix: string, e: nat)
    requires 0 < e <= |path| && (path + "}")[e] == '}' && forall j :: 0 <= j < e ==> (path + "}")[j] != '}'
    ensures HashedPart(Keys.Prefix(path) + suffix) == path[..e]
  {
    hide IndexOf;
    var key := Keys.Prefix(path) + suffix;
    assert key[0] == '{';
    IndexUnique(key, '{', 0);
    var rest := key[1..];
    assert rest == (path + "}") + suffix;
    IndexUnique(rest, '}', e);
    assert key[1..e + 1] == path[..e];
  }

  class RedisRing {
    const clients: map<string, string>
    const hash: ConsistentHash

    ghost predicate Valid()
      reads this, hash
    {
      hash.Valid() && (forall i :: 0 <= i < |hash.nodes| ==> hash.nodes[i] in clients) &&
      hash.replicas == 100
    }

    // One client per address, named by its index, all added to a ring of 100 replicas.
    constructor (addrs: seq<string>, hashFunction: string -> nat)
      ensures Valid() && fresh(hash) && hash.hash == hashFunction
      ensures |hash.nodes| == |addrs|
      ensures forall i :: 0 <= i < |addrs| ==> Keys.Itoa(i) in clients && clients[Keys.Itoa(i)] == addrs[i]
      ensures forall i :: 0 <= i < |addrs| ==> hash.nodes[i] == Keys.Itoa(i)
    {
      hide Keys.Itoa, Keys.Atoi, Owners;
      var ids: seq<string>, made: map<string, string> := [], map[];
      for i := 0 to |addrs|
        invariant |ids| == i && forall k :: 0 <= k < i ==> ids[k] == Keys.Itoa(k)
        invariant forall k :: 0 <= k < i ==> Keys.Itoa(k) in made && made[Keys.Itoa(k)] == addrs[k]
      {
        forall k | 0 <= k < i
          ensures Keys.Itoa(k) != Keys.Itoa(i)
        {
          Keys.AtoiItoa(k);
          Keys.AtoiItoa(i);
        }
        ids := ids + [Keys.Itoa(i)];
        made := made[Keys.Itoa(i) := addrs[i]];
      }
      var ring := new ConsistentHash(100, hashFunction);
      ring.Add(ids);
      clients, hash := made, ring;
    }

    // With at least one address there is a client for every key.
    method GetClient(key: string) returns (id: string)
      requires Valid()
      ensures forall s: nat, e: nat :: Braced(key, s, e) ==>
        Answers(hash.hash, hash.replicas, hash.nodes, key[s + 1..e], id)
      ensures (forall s: nat, e: nat :: !Braced(key, s, e)) ==>
        Answers(hash.hash, hash.replicas, hash.nodes, key, id)
      ensures hash.nodes != [] ==> id in clients
    {
      hide HashedPart, Braced, Answers;
      HashedPartIs(key);
      id := hash.Get(HashedPart(key));
      if hash.nodes != [] {
        AnswerIsNode(hash.hash, hash.replicas, hash.nodes, HashedPart(key), id);
      }
    }
  }
}
