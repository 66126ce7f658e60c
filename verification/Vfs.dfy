/**
 Path resolution in src/common/vfs.c over a tree whose nodes are loaded on first use.
 */
module Vfs {
  import opened Common

  /** What a directory holds on its file system: names and inode ids, in the order in which
      they are searched.  This stands for `register_inode` and the file system behind it. */
  type Listing = nat -> seq<(string, nat)>

  // ---------------------------------------------------------------- what a path means

  /** The first slash from `i` on, or the end of the string. */
  function Slash(s: string, i: nat): (e: nat)
    requires i <= |s|
    ensures i <= e <= |s| && (e < |s| ==> s[e] == '/') && forall k | i <= k < e :: s[k] != '/'
    decreases |s| - i
  {
    if i == |s| || s[i] == '/' then i else Slash(s, i + 1)
  }

  /** The components of a path from position `i` on. */
  function Split(s: string, i: nat): (parts: seq<string>)
    requires i <= |s|
    ensures 1 <= |parts|
    decreases |s| - i
  {
    var e := Slash(s, i);
    if e == |s| then [s[i..]] else [s[i..e]] + Split(s, e + 1)
  }

  function Join(parts: seq<string>): string {
    if |parts| == 0 then "" else if |parts| == 1 then parts[0] else parts[0] + "/" + Join(parts[1..])
  }

  /** Splitting is the inverse of joining, and components have no slash. */
  lemma SplitJoin(s: string, i: nat)
    requires i <= |s|
    ensures Join(Split(s, i)) == s[i..] && forall k | 0 <= k < |Split(s, i)| :: '/' !in Split(s, i)[k]
  {
    SplitJoins(s, i);
    SplitParts(s, i);
  }

  lemma {:induction false} SplitJoins(s: string, i: nat)
    requires i <= |s|
    ensures Join(Split(s, i)) == s[i..]
    decreases |s| - i
  {
    var e := Slash(s, i);
    if e < |s| {
      SplitJoins(s, e + 1);
      JoinCons(s[i..e], Split(s, e + 1));
      Cut(s, i, e);
    }
  }

  lemma {:induction false} SplitParts(s: string, i: nat)
    requires i <= |s|
    ensures forall k | 0 <= k < |Split(s, i)| :: '/' !in Split(s, i)[k]
    decreases |s| - i
  {
    var e := Slash(s, i);
    if e < |s| { SplitParts(s, e + 1); }
  }

  lemma JoinCons(name: string, rest: seq<string>)
    requires rest != []
    ensures Join([name] + rest) == name + "/" + Join(rest)
  {
    assert ([name] + rest)[1..] == rest;
  }

  lemma Cut(s: string, i: nat, e: nat)
    requires i <= e < |s| && s[e] == '/'
    ensures s[i..e] + "/" + s[e + 1..] == s[i..]
  {
  }

  /** The first entry of a listing with the given name, from entry `j` on. */
  function Lookup(list: seq<(string, nat)>, name: string, j: nat): (o: Option<nat>)
    requires j <= |list|
    ensures o.Some? ==> j <= o.value < |list| && list[o.value].0 == name
    ensures o.Some? ==> forall k | j <= k < o.value :: list[k].0 != name
    ensures o.None? ==> forall k | j <= k < |list| :: list[k].0 != name
    decreases |list| - j
  {
    if j == |list| then None else if list[j].0 == name then Some(j) else Lookup(list, name, j + 1)
  }

  /** The inode that the components `parts` lead to from inode `id` on, in the tree with all
      directories loaded. */
  function Resolve(children: Listing, id: nat, parts: seq<string>): Option<nat>
    decreases |parts|
  {
    if parts == [] then Some(id)
    else
      match Lookup(children(id), parts[0], 0)
      case None => None
      case Some(j) => Resolve(children, children(id)[j].1, parts[1..])
  }

  /** The first entry named `name` in a listing is for inode `x`. */
  ghost predicate FirstEntry(list: seq<(string, nat)>, name: string, x: nat) {
    exists j | 0 <= j < |list| :: list[j] == (name, x) && forall i | 0 <= i < j :: list[i].0 != name
  }

  /** `ids` leads through the components `parts`, from directory to directory. */
  ghost predicate IsChain(children: Listing, ids: seq<nat>, parts: seq<string>) {
    |ids| == |parts| + 1 && forall k | 0 <= k < |parts| :: FirstEntry(children(ids[k]), parts[k], ids[k + 1])
  }

  lemma FirstEntryLookup(list: seq<(string, nat)>, name: string, x: nat)
    ensures FirstEntry(list, name, x) <==> Lookup(list, name, 0).Some? && list[Lookup(list, name, 0).value].1 == x
  {
    if FirstEntry(list, name, x) {
      var j :| 0 <= j < |list| && list[j] == (name, x) && forall i | 0 <= i < j :: list[i].0 != name;
      assert Lookup(list, name, 0) == Some(j);
    }
    if Lookup(list, name, 0).Some? && list[Lookup(list, name, 0).value].1 == x {
      assert list[Lookup(list, name, 0).value] == (name, x);
    }
  }

  /** A path whose components name a chain of entries is found, and leads to its end. */
  lemma {:induction false} ChainResolves(children: Listing, ids: seq<nat>, parts: seq<string>)
    requires IsChain(children, ids, parts)
    ensures Resolve(children, ids[0], parts) == Some(ids[|parts|])
    decreases |parts|
  {
    if parts != [] {
      assert FirstEntry(children(ids[0]), parts[0], ids[1]);
      FirstEntryLookup(children(ids[0]), parts[0], ids[1]);
      ChainTail(children, ids, parts);
      ChainResolves(children, ids[1..], parts[1..]);
    }
  }

  lemma ChainTail(children: Listing, ids: seq<nat>, parts: seq<string>)
    requires IsChain(children, ids, parts) && parts != []
    ensures IsChain(children, ids[1..], parts[1..])
  {
    var more, ps := ids[1..], parts[1..];
    forall k | 0 <= k < |ps| ensures FirstEntry(children(more[k]), ps[k], more[k + 1]) {
      assert FirstEntry(children(ids[k + 1]), parts[k + 1], ids[k + 2]);
    }
  }

  /** And a path that is found has such a chain. */
  lemma {:induction false} ResolveChain(children: Listing, id: nat, parts: seq<string>) returns (ids: seq<nat>)
    requires Resolve(children, id, parts).Some?
    ensures IsChain(children, ids, parts) && ids[0] == id && ids[|parts|] == Resolve(children, id, parts).value
    decreases |parts|
  {
    if parts == [] {
      ids := [id];
    } else {
      var j := Lookup(children(id), parts[0], 0).value;
      var next := children(id)[j].1;
      var rest := ResolveChain(children, next, parts[1..]);
      FirstEntryLookup(children(id), parts[0], next);
      ids := [id] + rest;
      forall k | 0 <= k < |parts| ensures FirstEntry(children(ids[k]), parts[k], ids[k + 1]) {
        if k > 0 { assert FirstEntry(children(rest[k - 1]), parts[1..][k - 1], rest[k]); }
      }
    }
  }

  /** A path is found under inode `id`, as inode `found`, exactly if there is a chain. */
  ghost predicate Leads(children: Listing, id: nat, parts: seq<string>, found: nat) {
    exists ids: seq<nat> :: IsChain(children, ids, parts) && ids[0] == id && ids[|parts|] == found
  }

  lemma ResolveIff(children: Listing, id: nat, parts: seq<string>, found: nat)
    ensures Resolve(children, id, parts) == Some(found) <==> Leads(children, id, parts, found)
  {
    if Resolve(children, id, parts) == Some(found) {
      var ids := ResolveChain(children, id, parts);
    }
    if Leads(children, id, parts, found) {
      var ids: seq<nat> :| IsChain(children, ids, parts) && ids[0] == id && ids[|parts|] == found;
      ChainResolves(children, ids, parts);
    }
  }

  /** `found` is a node of the inode at the end of the chain, and none exactly if there is no
      chain. */
  ghost predicate Answers(children: Listing, id: nat, parts: seq<string>, nodes: seq<Node>, found: Option<nat>) {
    && (found.Some? ==> found.value < |nodes|)
    && forall x: nat :: Leads(children, id, parts, x) <==> found.Some? && nodes[found.value].id == x
  }

  lemma OpenAnswers(children: Listing, id: nat, parts: seq<string>, nodes: seq<Node>, root: nat, found: Option<nat>)
    requires match found
             case None => Resolve(children, id, parts) == None
             case Some(n) => Arrived(nodes, children, root, n, id, parts)
    ensures Answers(children, id, parts, nodes, found)
  {
    forall x: nat ensures Leads(children, id, parts, x) <==> found.Some? && nodes[found.value].id == x {
      ResolveIff(children, id, parts, x);
    }
  }

  predicate Prefix(p: string, s: string) { |p| <= |s| && s[..|p|] == p }

  /** The newest mount whose path is a prefix of `path`; mounts are kept newest first. */
  function Mounted(mounts: seq<(string, nat)>, path: string, m: nat): (o: Option<nat>)
    requires m <= |mounts|
    ensures o.Some? ==>
            m <= o.value < |mounts| && Prefix(mounts[o.value].0, path)
            && forall k | m <= k < o.value :: !Prefix(mounts[k].0, path)
    ensures o.None? ==> forall k | m <= k < |mounts| :: !Prefix(mounts[k].0, path)
    decreases |mounts| - m
  {
    if m == |mounts| then None else if Prefix(mounts[m].0, path) then Some(m) else Mounted(mounts, path, m + 1)
  }

  // ---------------------------------------------------------------- the loaded part

  /** `struct vfs_tnode` with its inode: children are numbers of nodes. */
  datatype Node = Node(id: nat, present: bool, kids: seq<(string, nat)>)

  /** The children of node `n` are those of its directory. */
  ghost predicate Loaded(nodes: seq<Node>, children: Listing, n: nat)
    requires n < |nodes|
  {
    var list := children(nodes[n].id);
    && |nodes[n].kids| == |list|
    && (forall j | 0 <= j < |list| :: nodes[n].kids[j].0 == list[j].0)
    && (forall j | 0 <= j < |list| :: nodes[n].kids[j].1 < |nodes| && nodes[nodes[n].kids[j].1].id == list[j].1)
  }

  ghost predicate Sound(nodes: seq<Node>, children: Listing) {
    forall n | 0 <= n < |nodes| && nodes[n].present :: Loaded(nodes, children, n)
  }

  /** Nodes are only added and loaded; they keep their inode, and loaded ones their children. */
  ghost predicate Extends(nodes: seq<Node>, later: seq<Node>) {
    && |nodes| <= |later|
    && forall n | 0 <= n < |nodes| :: later[n].id == nodes[n].id && (nodes[n].present ==> later[n] == nodes[n])
  }

  lemma ExtendsTrans(a: seq<Node>, b: seq<Node>, c: seq<Node>)
    requires Extends(a, b) && Extends(b, c)
    ensures Extends(a, c)
  {
  }

  function Fresh(list: seq<(string, nat)>, base: nat): (kids: seq<(string, nat)>)
    ensures |kids| == |list| && forall j | 0 <= j < |list| :: kids[j] == (list[j].0, base + j)
  {
    seq(|list|, j requires 0 <= j < |list| => (list[j].0, base + j))
  }

  function Unloaded(list: seq<(string, nat)>): (nodes: seq<Node>)
    ensures |nodes| == |list| && forall j | 0 <= j < |list| :: nodes[j] == Node(list[j].1, false, [])
  {
    seq(|list|, j requires 0 <= j < |list| => Node(list[j].1, false, []))
  }

  /** `register_inode`: node `n` is loaded, with new nodes for its children. */
  function Register(nodes: seq<Node>, children: Listing, n: nat): (out: seq<Node>)
    requires n < |nodes|
  {
    var list := children(nodes[n].id);
    nodes[n := Node(nodes[n].id, true, Fresh(list, |nodes|))] + Unloaded(list)
  }

  lemma RegisterSound(nodes: seq<Node>, children: Listing, n: nat)
    requires n < |nodes| && Sound(nodes, children) && !nodes[n].present
    ensures var out := Register(nodes, children, n);
            Sound(out, children) && Extends(nodes, out) && out[n].present && out[n].id == nodes[n].id
  {
    var out := Register(nodes, children, n);
    RegisterExtends(nodes, children, n, out);
    forall m | 0 <= m < |out| && out[m].present ensures Loaded(out, children, m) {
      if m == n {
        RegisterLoaded(nodes, children, n, out);
      } else {
        assert m < |nodes|;
        LoadedKept(nodes, out, children, m);
      }
    }
  }

  lemma RegisterExtends(nodes: seq<Node>, children: Listing, n: nat, out: seq<Node>)
    requires n < |nodes| && !nodes[n].present && out == Register(nodes, children, n)
    ensures Extends(nodes, out) && forall m | 0 <= m < |nodes| && m != n :: out[m] == nodes[m]
    ensures forall m | |nodes| <= m < |out| :: !out[m].present
  {
  }

  lemma RegisterLoaded(nodes: seq<Node>, children: Listing, n: nat, out: seq<Node>)
    requires n < |nodes| && out == Register(nodes, children, n)
    ensures Loaded(out, children, n)
  {
  }

  /** A loaded node stays in agreement with its directory. */
  lemma LoadedKept(nodes: seq<Node>, out: seq<Node>, children: Listing, m: nat)
    requires m < |nodes| && nodes[m].present && Loaded(nodes, children, m) && Extends(nodes, out)
    ensures Loaded(out, children, m)
  {
  }

  /** The node that a path leads to through loaded nodes only. */
  function Reach(nodes: seq<Node>, n: nat, parts: seq<string>): Option<nat>
    decreases |parts|
  {
    if parts == [] then Some(n)
    else if n >= |nodes| || !nodes[n].present then None
    else
      match Lookup(nodes[n].kids, parts[0], 0)
      case None => None
      case Some(j) => Reach(nodes, nodes[n].kids[j].1, parts[1..])
  }

  /** A path that has been opened leads to the same node for ever after. */
  lemma {:induction false} ReachKept(nodes: seq<Node>, later: seq<Node>, n: nat, parts: seq<string>)
    requires Extends(nodes, later) && Reach(nodes, n, parts).Some?
    ensures Reach(later, n, parts) == Reach(nodes, n, parts)
    decreases |parts|
  {
    if parts != [] {
      var j := Lookup(nodes[n].kids, parts[0], 0).value;
      ReachKept(nodes, later, nodes[n].kids[j].1, parts[1..]);
    }
  }

  /** Names are looked up in the same place in a loaded node and in its directory. */
  lemma {:induction false} SameLookup(kids: seq<(string, nat)>, list: seq<(string, nat)>, name: string, j: nat)
    requires |kids| == |list| && j <= |list| && forall k | 0 <= k < |list| :: kids[k].0 == list[k].0
    ensures Lookup(kids, name, j) == Lookup(list, name, j)
    decreases |list| - j
  {
    if j < |list| { SameLookup(kids, list, name, j + 1); }
  }

  // ---------------------------------------------------------------- comparisons

  /** The comparison of a path with the path of a mount. */
  method MatchMount(path: string, mount: string) returns (i: nat, same: bool)
    ensures same <==> Prefix(mount, path)
    ensures same ==> i == |mount|
  {
    i, same := 0, true;
    while i < |path| && i < |mount| && same
      invariant i <= |path| && i <= |mount|
      invariant same ==> path[..i] == mount[..i]
      invariant !same ==> i < |mount| && i < |path| && path[i] != mount[i]
      decreases |path| - i, same
    {
      if path[i] != mount[i] {
        same := false;
      } else {
        i := i + 1;
      }
    }
    if i < |mount| {
      same := false;
    }
  }

  method FindMount(mounts: seq<(string, nat)>, path: string) returns (found: Option<nat>)
    ensures found == Mounted(mounts, path, 0)
  {
    found := None;
    var m := 0;
    while m < |mounts| && found.None?
      invariant m <= |mounts|
      invariant if found.None? then Mounted(mounts, path, 0) == Mounted(mounts, path, m)
                else found == Mounted(mounts, path, 0)
      decreases |mounts| - m, found.None?
    {
      var i, same := MatchMount(path, mounts[m].0);
      if same {
        found := Some(m);
      } else {
        m := m + 1;
      }
    }
  }

  /** The comparison of a name with a component; a path ends in a NUL, which no name contains. */
  method MatchName(name: string, path: string, start: nat, end: nat) returns (same: bool)
    requires start <= end <= |path|
    ensures same <==> name == path[start..end]
  {
    same := |name| == end - start;
    var i := 0;
    var going := true;
    while i < |name| && going
      invariant i <= |name|
      invariant going ==>
                start + i <= |path| && (forall k | 0 <= k < i :: name[k] == path[start + k])
                && (same <==> |name| == end - start)
      invariant !going ==> !same && (|name| == end - start ==> name != path[start..end])
      decreases |name| - i, going
    {
      if start + i >= |path| || name[i] != path[start + i] {
        same, going := false, false;
      } else {
        i := i + 1;
      }
    }
  }

  method FindChild(kids: seq<(string, nat)>, path: string, start: nat, end: nat) returns (found: Option<nat>)
    requires start <= end <= |path|
    ensures found == Lookup(kids, path[start..end], 0)
  {
    ghost var name := path[start..end];
    found := None;
    var j := 0;
    while j < |kids| && found.None?
      invariant j <= |kids|
      invariant if found.None? then Lookup(kids, name, 0) == Lookup(kids, name, j) else found == Lookup(kids, name, 0)
      decreases |kids| - j, found.None?
    {
      var same := MatchName(kids[j].0, path, start, end);
      if same {
        found := Some(j);
      } else {
        j := j + 1;
      }
    }
  }

  method FindEnd(path: string, start: nat) returns (end: nat)
    requires start <= |path|
    ensures end == Slash(path, start)
  {
    end := start;
    while end < |path| && path[end] != '/'
      invariant start <= end <= |path| && Slash(path, start) == Slash(path, end)
    {
      end := end + 1;
    }
  }

  // ---------------------------------------------------------------- vfs_open

  lemma {:induction false} ReachAppend(nodes: seq<Node>, root: nat, done: seq<string>, n: nat, name: string, m: nat)
    requires Reach(nodes, root, done) == Some(n) && n < |nodes| && nodes[n].present
    requires Lookup(nodes[n].kids, name, 0).Some? && nodes[n].kids[Lookup(nodes[n].kids, name, 0).value].1 == m
    ensures Reach(nodes, root, done + [name]) == Some(m)
    decreases |done|
  {
    var all := done + [name];
    if done == [] {
      assert all[1..] == [];
    } else {
      assert all[0] == done[0] && all[1..] == done[1..] + [name];
      var j := Lookup(nodes[root].kids, done[0], 0).value;
      ReachAppend(nodes, nodes[root].kids[j].1, done[1..], n, name, m);
    }
  }

  /** The search has come from node `root` to node `n` by the components `done`; the path from
      `start` on is still to go. */
  ghost predicate OnTheWay(nodes: seq<Node>, children: Listing, root: nat, n: nat, id: nat, all: seq<string>,
      done: seq<string>, path: string, start: nat) {
    && Sound(nodes, children) && n < |nodes| && nodes[n].present && start <= |path|
    && Reach(nodes, root, done) == Some(n)
    && all == done + Split(path, start)
    && Resolve(children, id, all) == Resolve(children, nodes[n].id, Split(path, start))
  }

  lemma ResolveCons(children: Listing, id: nat, name: string, rest: seq<string>)
    ensures Resolve(children, id, [name] + rest) ==
            match Lookup(children(id), name, 0)
            case None => None
            case Some(j) => Resolve(children, children(id)[j].1, rest)
  {
    assert ([name] + rest)[1..] == rest;
  }

  /** The components after the one that ends at `end`. */
  function Rest(path: string, end: nat): seq<string>
    requires end <= |path|
  {
    if end == |path| then [] else Split(path, end + 1)
  }

  lemma SplitCons(path: string, start: nat, end: nat)
    requires start <= |path| && end == Slash(path, start)
    ensures Split(path, start) == [path[start..end]] + Rest(path, end)
  {
    if end == |path| {
      assert path[start..] == path[start..end];
    }
  }

  /** What the next component decides. */
  lemma NextPart(nodes: seq<Node>, children: Listing, n: nat, path: string, start: nat, end: nat, name: string)
    requires Sound(nodes, children) && n < |nodes| && nodes[n].present && start <= |path| && end == Slash(path, start)
             && name == path[start..end]
    ensures match Lookup(nodes[n].kids, name, 0)
            case None => Resolve(children, nodes[n].id, Split(path, start)) == None
            case Some(j) =>
              && nodes[n].kids[j].1 < |nodes|
              && Resolve(children, nodes[n].id, Split(path, start)) == Resolve(children, nodes[nodes[n].kids[j].1].id,
                  Rest(path, end))
  {
    assert Loaded(nodes, children, n);
    SameLookup(nodes[n].kids, children(nodes[n].id), name, 0);
    SplitCons(path, start, end);
    ResolveCons(children, nodes[n].id, name, Rest(path, end));
  }

  /** The child is loaded if it is not. */
  method Visit(nodes: seq<Node>, children: Listing, m: nat) returns (out: seq<Node>)
    requires Sound(nodes, children) && m < |nodes|
    ensures Sound(out, children) && Extends(nodes, out) && m < |out| && out[m].present && out[m].id == nodes[m].id
  {
    out := nodes;
    if !nodes[m].present {
      RegisterSound(nodes, children, m);
      out := Register(nodes, children, m);
    }
  }

  /** One component of the path: the node that it leads to. */
  method OpenPart(nodes: seq<Node>, children: Listing, n: nat, path: string, start: nat, end: nat,
                  ghost root: nat, ghost id: nat, ghost all: seq<string>, ghost done: seq<string>)
    returns (next: Option<nat>, out: seq<Node>, ghost done': seq<string>)
    requires OnTheWay(nodes, children, root, n, id, all, done, path, start) && end == Slash(path, start)
    ensures Extends(nodes, out) && Sound(out, children)
    ensures next.None? ==> Resolve(children, id, all) == None
    ensures next.Some? && end == |path| ==> Arrived(out, children, root, next.value, id, all)
    ensures next.Some? && end < |path| ==> OnTheWay(out, children, root, next.value, id, all, done', path, end + 1)
  {
    ghost var name := path[start..end];
    done' := done + [name];
    var j := FindChild(nodes[n].kids, path, start, end);
    NextPart(nodes, children, n, path, start, end, name);
    if j.None? {
      return None, nodes, done';
    }
    var m := nodes[n].kids[j.value].1;
    ReachAppend(nodes, root, done, n, name, m);
    out := Visit(nodes, children, m);
    ReachKept(nodes, out, root, done');
    if end == |path| {
      LastPart(nodes, out, children, root, n, m, id, all, done, path, start, name);
    } else {
      MorePart(nodes, out, children, root, n, m, id, all, done, path, start, end, name);
    }
    next := Some(m);
  }

  lemma Regroup(done: seq<string>, name: string, rest: seq<string>)
    ensures done + ([name] + rest) == (done + [name]) + rest
  {
  }

  lemma LastPart(nodes: seq<Node>, out: seq<Node>, children: Listing, root: nat, n: nat, m: nat, id: nat,
      all: seq<string>, done: seq<string>, path: string, start: nat, name: string)
    requires OnTheWay(nodes, children, root, n, id, all, done, path, start) && Slash(path, start) == |path|
             && name == path[start..|path|]
    requires Lookup(nodes[n].kids, name, 0).Some? && m == nodes[n].kids[Lookup(nodes[n].kids, name, 0).value].1
             && m < |nodes|
    requires Extends(nodes, out) && out[m].present && Reach(out, root, done + [name]) == Some(m)
    ensures Arrived(out, children, root, m, id, all)
  {
    NextPart(nodes, children, n, path, start, |path|, name);
    SplitCons(path, start, |path|);
  }

  lemma MorePart(nodes: seq<Node>, out: seq<Node>, children: Listing, root: nat, n: nat, m: nat, id: nat,
      all: seq<string>, done: seq<string>, path: string, start: nat, end: nat, name: string)
    requires OnTheWay(nodes, children, root, n, id, all, done, path, start) && end == Slash(path, start) < |path|
             && name == path[start..end]
    requires Lookup(nodes[n].kids, name, 0).Some? && m == nodes[n].kids[Lookup(nodes[n].kids, name, 0).value].1
             && m < |nodes|
    requires Extends(nodes, out) && Sound(out, children) && out[m].present && Reach(out, root, done + [name]) == Some(m)
    ensures OnTheWay(out, children, root, m, id, all, done + [name], path, end + 1)
  {
    NextPart(nodes, children, n, path, start, end, name);
    SplitCons(path, start, end);
    Regroup(done, name, Split(path, end + 1));
  }

  /** The search has arrived at node `n`. */
  ghost predicate Arrived(nodes: seq<Node>, children: Listing, root: nat, n: nat, id: nat, all: seq<string>) {
    n < |nodes| && nodes[n].present && Reach(nodes, root, all) == Some(n)
        && Resolve(children, id, all) == Some(nodes[n].id)
  }

  /** The loop of `vfs_open` over the components. */
  method OpenFrom(nodes: seq<Node>, children: Listing, root: nat, path: string, first: nat)
      returns (found: Option<nat>, out: seq<Node>)
    requires Sound(nodes, children) && root < |nodes| && nodes[root].present && first <= |path|
    ensures Sound(out, children) && Extends(nodes, out)
    ensures match found
            case None => Resolve(children, nodes[root].id, Split(path, first)) == None
            case Some(n) => Arrived(out, children, root, n, nodes[root].id, Split(path, first))
  {
    ghost var all, id := Split(path, first), nodes[root].id;
    ghost var done: seq<string> := [];
    out := nodes;
    found := Some(root);
    var start := first;
    var going := true;
    while going
      invariant Sound(out, children) && Extends(nodes, out) && start <= |path|
      invariant going ==> found.Some? && OnTheWay(out, children, root, found.value, id, all, done, path, start)
      invariant !going && found.Some? ==> Arrived(out, children, root, found.value, id, all)
      invariant !going && found.None? ==> Resolve(children, id, all) == None
      decreases going, |path| - start
    {
      ghost var before := out;
      var end := FindEnd(path, start);
      found, out, done := OpenPart(out, children, found.value, path, start, end, root, id, all, done);
      ExtendsTrans(nodes, before, out);
      going := found.Some? && end < |path|;
      start := if end < |path| then end + 1 else end;
    }
  }

  class FileSystem {
    const children: Listing

    /** Mount points, newest first: path and number of the root's node. */
    var mounts: seq<(string, nat)>
    var nodes: seq<Node>

    ghost predicate Valid()
      reads this
    {
      Sound(nodes, children) && forall k | 0 <= k < |mounts| :: mounts[k].1 < |nodes| && nodes[mounts[k].1].present
    }

    constructor (children: Listing)
      ensures Valid() && this.children == children && mounts == [] && nodes == []
    {
      this.children := children;
      mounts, nodes := [], [];
    }

    /** `mount`, with the root directory of the file system loaded. */
    method Mount(path: string, id: nat)
      requires Valid()
      modifies this
      ensures Valid() && Extends(old(nodes), nodes)
      ensures mounts == [(path, old(|nodes|))] + old(mounts) && old(|nodes|) < |nodes| && nodes[old(|nodes|)].id == id
    {
      var root := |nodes|;
      nodes := nodes + [Node(id, false, [])];
      RootAdded(old(nodes), nodes, children);
      nodes := Visit(nodes, children, root);
      mounts := [(path, root)] + mounts;
    }

    /** `vfs_open`: the inode that splitting the path at slashes and walking the whole tree
        leads to, under the newest mount whose path is a prefix; none if there is no such mount
        or no such file.  The answer does not depend on what has been loaded, and the node
        stands for the path from then on. */
    method Open(path: string) returns (found: Option<nat>)
      requires Valid()
      requires Mounted(mounts, path, 0).Some? ==> |mounts[Mounted(mounts, path, 0).value].0| < |path|
      modifies this`nodes
      ensures Valid() && Extends(old(nodes), nodes)
      ensures match Mounted(mounts, path, 0)
              case None => found == None
              case Some(m) =>
                var (prefix, root) := mounts[m];
                match Resolve(children, nodes[root].id, Split(path, |prefix| + 1))
                case None => found == None
                case Some(id) =>
                  && found.Some?
                  && Arrived(nodes, children, root, found.value, nodes[root].id, Split(path, |prefix| + 1))
                  && nodes[found.value].id == id
      ensures match Mounted(mounts, path, 0)
              case None => true
              case Some(m) =>
                var (prefix, root) := mounts[m];
                Answers(children, nodes[root].id, Split(path, |prefix| + 1), nodes, found)
    {
      var m := FindMount(mounts, path);
      if m.None? {
        return None;
      }
      var (prefix, root) := mounts[m.value];
      found, nodes := OpenFrom(nodes, children, root, path, |prefix| + 1);
      OpenAnswers(children, nodes[root].id, Split(path, |prefix| + 1), nodes, root, found);
    }
  }

  lemma RootAdded(nodes: seq<Node>, out: seq<Node>, children: Listing)
    requires Sound(nodes, children) && |out| == |nodes| + 1 && out[..|nodes|] == nodes && !out[|nodes|].present
    ensures Sound(out, children) && Extends(nodes, out)
  {
    forall n | 0 <= n < |out| && out[n].present ensures Loaded(out, children, n) {
      assert out[n] == nodes[n];
      assert Loaded(nodes, children, n);
    }
  }

  /** Opening a path again gives the same node, whatever was opened or mounted in between. */
  lemma OpenAgain(nodes: seq<Node>, later: seq<Node>, children: Listing, root: nat, n: nat, n': nat, id: nat,
      parts: seq<string>)
    requires Arrived(nodes, children, root, n, id, parts) && Extends(nodes, later)
    requires Arrived(later, children, root, n', id, parts)
    ensures n' == n && later[n'].id == nodes[n].id
  {
    ReachKept(nodes, later, root, parts);
  }
}
