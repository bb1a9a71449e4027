/** What the paths of members mean: the keys that lead to a node, with dots between them. */
module ConfigPaths {
  import opened Wrappers
  import opened Configs

  // Going down by the keys, one after the other, can lead from `root` to `node`.
  ghost predicate Reached(root: Yaml, keys: seq<string>, node: Yaml)
    decreases |keys|
  {
    if keys == [] then node == root
    else
      root.Mapping? &&
      exists i :: 0 <= i < |root.entries| && root.entries[i].key == keys[0]
                  && Reached(root.entries[i].node, keys[1..], node)
  }

  // Each key after a dot.
  function DotAndKeys(keys: seq<string>): string {
    if keys == [] then [] else "." + (keys[0] + DotAndKeys(keys[1..]))
  }

  // The keys with dots between them; nothing is left of empty keys at the beginning.
  function Dotted(keys: seq<string>): string {
    if keys == [] then []
    else if keys[0] == [] then Dotted(keys[1..])
    else keys[0] + DotAndKeys(keys[1..])
  }

  function PathUnder(prefix: string, keys: seq<string>): string {
    if prefix == [] then Dotted(keys) else prefix + DotAndKeys(keys)
  }

  lemma PathUnderSub(prefix: string, key: string, keys: seq<string>)
    ensures PathUnder(SubPath(prefix, key), keys) == PathUnder(prefix, [key] + keys)
  {
    assert ([key] + keys)[1..] == keys;
    if prefix != [] {
      var tail := DotAndKeys(keys);
      assert prefix + "." + key + tail == prefix + ("." + (key + tail));
    }
  }

  lemma {:induction false} SelfIsMember(node: Yaml, prefix: string, n: nat)
    requires n <= Width(node)
    ensures Member(prefix, node) in Preorder(node, prefix, n)
  {
    if n > 0 {
      SelfIsMember(node, prefix, n - 1);
    }
  }

  // The members below an entry are members of the node.
  lemma {:induction false} EntryIsThere(node: Yaml, prefix: string, n: nat, i: nat, m: Member)
    requires i < n <= Width(node)
    requires var e := node.entries[i]; m in Document(e.node, SubPath(prefix, e.key))
    ensures m in Preorder(node, prefix, n)
    decreases n
  {
    if i < n - 1 {
      EntryIsThere(node, prefix, n - 1, i, m);
    }
  }

  lemma {:induction false} ReachedIsMember(node: Yaml, prefix: string, keys: seq<string>, target: Yaml)
    requires Reached(node, keys, target)
    ensures Member(PathUnder(prefix, keys), target) in Document(node, prefix)
    decreases |keys|
  {
    if keys == [] {
      assert prefix + [] == prefix;
      SelfIsMember(node, prefix, Width(node));
    } else {
      var i :| 0 <= i < |node.entries| && node.entries[i].key == keys[0]
               && Reached(node.entries[i].node, keys[1..], target);
      var e := node.entries[i];
      ReachedIsMember(e.node, SubPath(prefix, e.key), keys[1..], target);
      PathUnderSub(prefix, e.key, keys[1..]);
      assert keys == [e.key] + keys[1..];
      EntryIsThere(node, prefix, Width(node), i, Member(PathUnder(prefix, keys), target));
    }
  }

  lemma {:induction false} MemberIsReached(node: Yaml, prefix: string, n: nat, m: Member) returns (keys: seq<string>)
    requires n <= Width(node) && m in Preorder(node, prefix, n)
    ensures Reached(node, keys, m.node) && m.path == PathUnder(prefix, keys)
    decreases node, n
  {
    if n == 0 {
      keys := [];
      assert prefix + [] == prefix;
    } else if m in Preorder(node, prefix, n - 1) {
      keys := MemberIsReached(node, prefix, n - 1, m);
    } else {
      var e := node.entries[n - 1];
      var rest := MemberIsReached(e.node, SubPath(prefix, e.key), Width(e.node), m);
      PathUnderSub(prefix, e.key, rest);
      keys := [e.key] + rest;
      assert keys[1..] == rest;
      assert node.entries[n - 1].key == keys[0];
    }
  }

  lemma SameMembers(root: Yaml, m: Member)
    ensures m in Extracted(root, "") <==> m in Document(root, "")
  {
    ExtractionIsStableSort(root);
    assert m in Extracted(root, "") <==> m in multiset(Extracted(root, ""));
    assert m in Document(root, "") <==> m in multiset(Document(root, ""));
  }

  /** Extraction yields exactly the nodes that keys lead to, each with those keys, joined by dots, as its path. */
  lemma MembersAreReached(root: Yaml, m: Member)
    ensures m in Extracted(root, "") <==> exists keys :: Reached(root, keys, m.node) && m.path == Dotted(keys)
  {
    SameMembers(root, m);
    if m in Document(root, "") {
      var keys := MemberIsReached(root, "", Width(root), m);
      assert PathUnder("", keys) == Dotted(keys);
    }
    if keys :| Reached(root, keys, m.node) && m.path == Dotted(keys) {
      ReachedIsMember(root, "", keys, m.node);
      assert PathUnder("", keys) == Dotted(keys);
    }
  }

  // Each path of that name leads to this node.
  ghost predicate OnlyNode(root: Yaml, name: string, node: Yaml) {
    forall keys, other :: Reached(root, keys, other) && Dotted(keys) == name ==> other == node
  }

  lemma {:induction false} AtIsThere(ms: seq<Member>, path: string, i: nat)
    requires i < |At(ms, path)|
    ensures At(ms, path)[i].path == path && At(ms, path)[i] in ms
    decreases |ms|
  {
    var k := if ms[0].path == path then 1 else 0;
    if i >= k {
      AtIsThere(ms[1..], path, i - k);
    }
  }

  lemma {:induction false} MemberIsAt(ms: seq<Member>, m: Member)
    requires m in ms
    ensures At(ms, m.path) != []
  {
    if m != ms[0] {
      MemberIsAt(ms[1..], m);
    }
  }

  /** When all conversions succeed, a variable gets the converted node that its name, taken as keys with dots between
      them, leads to. */
  lemma VariableGetsItsNode<V>(vars: map<string, V>, root: Yaml, keys: seq<string>, node: Yaml,
                               convert: (string, Yaml) -> Option<V>)
    requires Converts(vars, Document(root, ""), convert)
    requires Reached(root, keys, node) && Dotted(keys) in vars && Dotted(keys) != [] && OnlyNode(root, Dotted(keys), node)
    ensures var name := Dotted(keys);
            var loaded := Assigned(vars, Extracted(root, ""), convert);
            loaded.ok && name in loaded.vars && convert(name, node) == Some(loaded.vars[name])
  {
    var name, ms := Dotted(keys), Document(root, "");
    LoadingFollowsDocument(vars, root, convert);
    LastOneWins(vars, ms, convert, name);
    ReachedIsMember(root, "", keys, node);
    assert PathUnder("", keys) == name;
    MemberIsAt(ms, Member(name, node));
    var last := |At(ms, name)| - 1;
    AtIsThere(ms, name, last);
    ConvertsAt(vars, ms, convert, name);
    var found := MemberIsReached(root, "", Width(root), At(ms, name)[last]);
    assert PathUnder("", found) == Dotted(found);
  }

  /** A variable whose name leads to no node keeps its value. */
  lemma OtherVariablesStay<V>(vars: map<string, V>, root: Yaml, name: string, convert: (string, Yaml) -> Option<V>)
    requires Converts(vars, Document(root, ""), convert) && name in vars
    requires forall keys, node :: Reached(root, keys, node) ==> Dotted(keys) != name
    ensures var loaded := Assigned(vars, Extracted(root, ""), convert);
            name in loaded.vars && loaded.vars[name] == vars[name]
  {
    var ms := Document(root, "");
    LoadingFollowsDocument(vars, root, convert);
    LastOneWins(vars, ms, convert, name);
    if At(ms, name) != [] {
      AtIsThere(ms, name, 0);
      var found := MemberIsReached(root, "", Width(root), At(ms, name)[0]);
    }
  }

  // ----- The order of paths

  lemma FirstCharactersAgree(a: string, b: string)
    ensures forall i: nat :: 0 < i <= |a| && i <= |b| && a[..i] == b[..i] ==> a[0] == b[0]
  {
    forall i: nat | 0 < i <= |a| && i <= |b| && a[..i] == b[..i]
      ensures a[0] == b[0]
    {
      assert a[..i][0] == a[0] && b[..i][0] == b[0];
    }
  }

  /** Paths are ordered as strings are: one comes first if it is a proper beginning of the other, or at the first
      difference it has the smaller character. */
  lemma {:induction false} LessExactly(a: string, b: string)
    ensures Less(a, b) <==> exists i: nat :: i <= |a| && i < |b| && a[..i] == b[..i] && (i == |a| || a[i] < b[i])
  {
    FirstCharactersAgree(a, b);
    if b == [] {
    } else if a == [] || a[0] < b[0] {
      assert a[..0] == b[..0];
    } else if a[0] == b[0] {
      LessExactly(a[1..], b[1..]);
      if i: nat :| i <= |a[1..]| && i < |b[1..]| && a[1..][..i] == b[1..][..i] && (i == |a[1..]| || a[1..][i] < b[1..][i]) {
        assert a[..i + 1] == [a[0]] + a[1..][..i] && b[..i + 1] == [b[0]] + b[1..][..i];
      }
      if i: nat :| i <= |a| && i < |b| && a[..i] == b[..i] && (i == |a| || a[i] < b[i]) {
        assert i > 0;
        assert a[1..][..i - 1] == a[..i][1..] && b[1..][..i - 1] == b[..i][1..];
      }
    }
  }
}
