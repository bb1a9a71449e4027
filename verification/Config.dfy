/** The loading of configuration variables from a YAML tree, through a sorted list of all its members. */
module Configs {
  import opened Wrappers

  // A node that is no mapping (a scalar, a sequence) is a leaf. Entries are in the order of the document.
  datatype Yaml = Leaf(value: string) | Mapping(entries: seq<Entry>)

  datatype Entry = Entry(key: string, node: Yaml)

  datatype Member = Member(path: string, node: Yaml)

  // ----- The order of paths

  predicate Less(a: string, b: string) {
    b != [] && (a == [] || a[0] < b[0] || (a[0] == b[0] && Less(a[1..], b[1..])))
  }

  lemma {:induction false} LessIsTransitive(a: string, b: string, c: string)
    requires !Less(b, a) && !Less(c, b)
    ensures !Less(c, a)
  {
    if a != [] && b != [] && c != [] {
      if a[0] == b[0] == c[0] {
        LessIsTransitive(a[1..], b[1..], c[1..]);
      }
    }
  }

  lemma {:induction false} LessIsStrict(a: string, b: string)
    ensures !(Less(a, b) && Less(b, a))
    ensures Less(a, b) || Less(b, a) <==> a != b
  {
    if a != [] && b != [] && a[0] == b[0] {
      LessIsStrict(a[1..], b[1..]);
      assert a == [a[0]] + a[1..] && b == [b[0]] + b[1..];
    }
  }

  lemma {:induction false} PrefixIsNotGreater(a: string, b: string)
    requires a <= b
    ensures !Less(b, a)
  {
    if a != [] {
      PrefixIsNotGreater(a[1..], b[1..]);
    }
  }

  ghost predicate Sorted(ms: seq<Member>) {
    forall i, j :: 0 <= i < j < |ms| ==> !Less(ms[j].path, ms[i].path)
  }

  // The members with one path, in the order of the list.
  function At(ms: seq<Member>, path: string): seq<Member> {
    if ms == [] then [] else (if ms[0].path == path then [ms[0]] else []) + At(ms[1..], path)
  }

  // ----- Merging, as a list does: both lists have to be sorted, and the first one goes first among equals

  function Merge(a: seq<Member>, b: seq<Member>): seq<Member>
    requires Sorted(a) && Sorted(b)
    decreases |a| + |b|
  {
    if a == [] then b
    else if b == [] then a
    else if Less(b[0].path, a[0].path) then [b[0]] + Merge(a, b[1..])
    else [a[0]] + Merge(a[1..], b)
  }

  lemma FirstOfAll(ms: seq<Member>)
    requires ms != []
    ensures multiset(ms) == multiset{ms[0]} + multiset(ms[1..])
  {
    assert ms == [ms[0]] + ms[1..];
  }

  lemma {:induction false} MergeKeepsAll(a: seq<Member>, b: seq<Member>)
    requires Sorted(a) && Sorted(b)
    ensures multiset(Merge(a, b)) == multiset(a) + multiset(b)
    decreases |a| + |b|
  {
    if a != [] && b != [] {
      if Less(b[0].path, a[0].path) {
        MergeKeepsAll(a, b[1..]);
        FirstOfAll(b);
      } else {
        MergeKeepsAll(a[1..], b);
        FirstOfAll(a);
      }
    }
  }

  lemma MergeElements(a: seq<Member>, b: seq<Member>, i: nat)
    requires Sorted(a) && Sorted(b) && i < |Merge(a, b)|
    ensures Merge(a, b)[i] in a || Merge(a, b)[i] in b
  {
    MergeKeepsAll(a, b);
    assert Merge(a, b)[i] in multiset(Merge(a, b));
  }

  // A sorted list stays sorted when something not greater than its first element is put in front.
  lemma ConsSorted(m: Member, ms: seq<Member>)
    requires Sorted(ms) && forall i :: 0 <= i < |ms| ==> !Less(ms[i].path, m.path)
    ensures Sorted([m] + ms)
  {
  }

  lemma SortedHead(ms: seq<Member>, m: Member)
    requires Sorted(ms) && m in ms
    ensures !Less(m.path, ms[0].path)
  {
    var i :| 0 <= i < |ms| && ms[i] == m;
    LessIsStrict(ms[0].path, ms[0].path);
  }

  lemma {:induction false} MergeIsSorted(a: seq<Member>, b: seq<Member>)
    requires Sorted(a) && Sorted(b)
    ensures Sorted(Merge(a, b))
    decreases |a| + |b|
  {
    if a != [] && b != [] {
      LessIsStrict(a[0].path, b[0].path);
      LessIsStrict(a[0].path, a[0].path);
      LessIsStrict(b[0].path, b[0].path);
      var fromB := Less(b[0].path, a[0].path);
      var head, a', b' := if fromB then b[0] else a[0], if fromB then a else a[1..], if fromB then b[1..] else b;
      MergeIsSorted(a', b');
      forall i | 0 <= i < |Merge(a', b')|
        ensures !Less(Merge(a', b')[i].path, head.path)
      {
        var m := Merge(a', b')[i];
        MergeElements(a', b', i);
        if m in a' {
          SortedHead(a, m);
          LessIsTransitive(head.path, a[0].path, m.path);
        } else {
          SortedHead(b, m);
          LessIsTransitive(head.path, b[0].path, m.path);
        }
      }
      ConsSorted(head, Merge(a', b'));
    }
  }

  lemma {:induction false} NothingBelow(ms: seq<Member>, path: string)
    requires forall i :: 0 <= i < |ms| ==> ms[i].path != path
    ensures At(ms, path) == []
  {
    if ms != [] {
      NothingBelow(ms[1..], path);
    }
  }

  lemma NothingSmaller(ms: seq<Member>, path: string)
    requires Sorted(ms) && ms != [] && Less(path, ms[0].path)
    ensures At(ms, path) == []
  {
    forall i | 0 <= i < |ms|
      ensures ms[i].path != path
    {
      SortedHead(ms, ms[i]);
    }
    NothingBelow(ms, path);
  }

  lemma AtFirst(m: Member, ms: seq<Member>, path: string)
    ensures At([m] + ms, path) == if m.path == path then [m] + At(ms, path) else At(ms, path)
  {
    assert ([m] + ms)[1..] == ms;
  }

  lemma SecondGoesFirst(a: seq<Member>, m: Member, b: seq<Member>, tail: seq<Member>, path: string)
    requires Sorted(a) && a != [] && Less(m.path, a[0].path)
    requires At(tail, path) == At(a, path) + At(b, path)
    ensures At([m] + tail, path) == At(a, path) + At([m] + b, path)
  {
    AtFirst(m, tail, path);
    AtFirst(m, b, path);
    if m.path == path {
      NothingSmaller(a, path);
      EmptyFirst(At(a, path), m, At(b, path), At(tail, path));
    }
  }

  lemma EmptyFirst(a: seq<Member>, m: Member, b: seq<Member>, tail: seq<Member>)
    requires a == [] && tail == a + b
    ensures [m] + tail == a + ([m] + b)
  {
  }

  lemma FirstGoesFirst(m: Member, a: seq<Member>, b: seq<Member>, tail: seq<Member>, path: string)
    requires At(tail, path) == At(a, path) + At(b, path)
    ensures At([m] + tail, path) == At([m] + a, path) + At(b, path)
  {
    AtFirst(m, tail, path);
    AtFirst(m, a, path);
  }

  /** Merging is stable: among members with the same path, those of the first list come first, in their order. */
  lemma {:induction false} MergeIsStable(a: seq<Member>, b: seq<Member>, path: string)
    requires Sorted(a) && Sorted(b)
    ensures At(Merge(a, b), path) == At(a, path) + At(b, path)
    decreases |a| + |b|
  {
    if a != [] && b != [] {
      if Less(b[0].path, a[0].path) {
        MergeIsStable(a, b[1..], path);
        SecondGoesFirst(a, b[0], b[1..], Merge(a, b[1..]), path);
        assert [b[0]] + b[1..] == b;
      } else {
        MergeIsStable(a[1..], b, path);
        FirstGoesFirst(a[0], a[1..], b, Merge(a[1..], b), path);
        assert [a[0]] + a[1..] == a;
      }
    }
  }

  // ----- Extraction

  function SubPath(prefix: string, key: string): string {
    if prefix == [] then key else prefix + "." + key
  }

  ghost predicate Below(ms: seq<Member>, prefix: string) {
    forall i :: 0 <= i < |ms| ==> prefix <= ms[i].path
  }

  function Width(node: Yaml): nat {
    if node.Mapping? then |node.entries| else 0
  }

  // The node, merged with the members of its first `n` entries.
  function MergedEntries(node: Yaml, prefix: string, n: nat): (r: seq<Member>)
    requires n <= Width(node)
    ensures Sorted(r) && Below(r, prefix)
    decreases node, n
  {
    if n == 0 then [Member(prefix, node)]
    else
      var sofar := MergedEntries(node, prefix, n - 1);
      var e := node.entries[n - 1];
      var sub := MergedEntries(e.node, SubPath(prefix, e.key), Width(e.node));
      MergeIsSorted(sofar, sub);
      assert Below(Merge(sofar, sub), prefix) by {
        forall i | 0 <= i < |Merge(sofar, sub)|
          ensures prefix <= Merge(sofar, sub)[i].path
        {
          MergeElements(sofar, sub, i);
        }
      }
      Merge(sofar, sub)
  }

  function Extracted(node: Yaml, prefix: string): seq<Member> {
    MergedEntries(node, prefix, Width(node))
  }

  method ExtractMembers(node: Yaml, prefix: string) returns (members: seq<Member>)
    ensures members == Extracted(node, prefix)
    decreases node
  {
    members := [Member(prefix, node)];
    if node.Mapping? {
      for i := 0 to |node.entries|
        invariant members == MergedEntries(node, prefix, i)
      {
        var e := node.entries[i];
        var sub := ExtractMembers(e.node, SubPath(prefix, e.key));
        members := Merge(members, sub);
      }
    }
  }

  // The members in the order of the document, a node before its entries.
  function Preorder(node: Yaml, prefix: string, n: nat): seq<Member>
    requires n <= Width(node)
    decreases node, n
  {
    if n == 0 then [Member(prefix, node)]
    else
      var e := node.entries[n - 1];
      Preorder(node, prefix, n - 1)
      + Preorder(e.node, SubPath(prefix, e.key), Width(e.node))
  }

  function Document(node: Yaml, prefix: string): seq<Member> {
    Preorder(node, prefix, Width(node))
  }

  lemma {:induction false} AtConcat(a: seq<Member>, b: seq<Member>, path: string)
    ensures At(a + b, path) == At(a, path) + At(b, path)
  {
    if a == [] {
      assert a + b == b;
    } else {
      assert (a + b)[1..] == a[1..] + b && (a + b)[0] == a[0];
      AtConcat(a[1..], b, path);
      var head := if a[0].path == path then [a[0]] else [];
      assert head + (At(a[1..], path) + At(b, path)) == head + At(a[1..], path) + At(b, path);
    }
  }

  // A list is determined, up to the order of different paths, by its members with each path.
  lemma {:induction false} AtCounts(ms: seq<Member>, m: Member)
    ensures multiset(ms)[m] == multiset(At(ms, m.path))[m]
    decreases |ms|
  {
    if ms != [] {
      AtCounts(ms[1..], m);
      assert ms == [ms[0]] + ms[1..];
    }
  }

  lemma MergeLikeConcat(a: seq<Member>, b: seq<Member>, c: seq<Member>, d: seq<Member>, path: string)
    requires Sorted(a) && Sorted(b) && At(a, path) == At(c, path) && At(b, path) == At(d, path)
    ensures At(Merge(a, b), path) == At(c + d, path)
  {
    MergeIsStable(a, b, path);
    AtConcat(c, d, path);
  }

  ghost predicate KeepsOrder(node: Yaml, prefix: string, n: nat, path: string)
    requires n <= Width(node)
  {
    At(MergedEntries(node, prefix, n), path) == At(Preorder(node, prefix, n), path)
  }

  lemma NextKeepsOrder(node: Yaml, prefix: string, n: nat, path: string)
    requires 0 < n <= Width(node) && KeepsOrder(node, prefix, n - 1, path)
    requires var e := node.entries[n - 1]; KeepsOrder(e.node, SubPath(prefix, e.key), Width(e.node), path)
    ensures KeepsOrder(node, prefix, n, path)
  {
    var e := node.entries[n - 1];
    var sub := SubPath(prefix, e.key);
    MergeLikeConcat(MergedEntries(node, prefix, n - 1), MergedEntries(e.node, sub, Width(e.node)),
                    Preorder(node, prefix, n - 1), Preorder(e.node, sub, Width(e.node)), path);
  }

  lemma {:induction false} EntriesKeepOrder(node: Yaml, prefix: string, n: nat, path: string)
    requires n <= Width(node)
    ensures KeepsOrder(node, prefix, n, path)
    decreases node, n
  {
    if n != 0 {
      var e := node.entries[n - 1];
      EntriesKeepOrder(node, prefix, n - 1, path);
      EntriesKeepOrder(e.node, SubPath(prefix, e.key), Width(e.node), path);
      NextKeepsOrder(node, prefix, n, path);
    }
  }

  /** Extraction is a stable sort of the tree by path: every node occurs exactly as often as in the tree, paths
      ascend, and members with the same path keep the order of the document. */
  lemma ExtractionIsStableSort(root: Yaml)
    ensures Sorted(Extracted(root, ""))
    ensures forall path :: At(Extracted(root, ""), path) == At(Document(root, ""), path)
    ensures multiset(Extracted(root, "")) == multiset(Document(root, ""))
  {
    forall path
      ensures At(Extracted(root, ""), path) == At(Document(root, ""), path)
    {
      EntriesKeepOrder(root, "", Width(root), path);
    }
    forall m
      ensures multiset(Extracted(root, ""))[m] == multiset(Document(root, ""))[m]
    {
      AtCounts(Extracted(root, ""), m);
      AtCounts(Document(root, ""), m);
    }
  }

  // ----- Loading

  // Values after a list of assignments, and whether no conversion failed; a failure ends the list.
  datatype Loaded<+V> = Loaded(vars: map<string, V>, ok: bool)

  predicate Assigns<V>(vars: map<string, V>, m: Member) {
    m.path != [] && m.path in vars
  }

  function Assigned<V>(vars: map<string, V>, ms: seq<Member>, convert: (string, Yaml) -> Option<V>): Loaded<V> {
    if ms == [] then Loaded(vars, true)
    else if !Assigns(vars, ms[0]) then Assigned(vars, ms[1..], convert)
    else
      match convert(ms[0].path, ms[0].node)
      case None => Loaded(vars, false)
      case Some(v) => Assigned(vars[ms[0].path := v], ms[1..], convert)
  }

  class Config<V> {
    var vars: map<string, V>

    constructor (vars: map<string, V>)
      ensures this.vars == vars
    {
      this.vars := vars;
    }

    method LoadYaml(root: Yaml, convert: (string, Yaml) -> Option<V>) returns (ok: bool)
      modifies this
      ensures Loaded(vars, ok) == Assigned(old(vars), Extracted(root, ""), convert)
    {
      var members := ExtractMembers(root, "");
      assert members[0..] == members;
      for i := 0 to |members|
        invariant Assigned(vars, members[i..], convert) == Assigned(old(vars), Extracted(root, ""), convert)
      {
        assert members[i..][0] == members[i] && members[i..][1..] == members[i + 1..];
        var m := members[i];
        if m.path != [] && m.path in vars {
          var v := convert(m.path, m.node);
          if v.None? {
            return false;
          }
          vars := vars[m.path := v.value];
        }
      }
      ok := true;
    }
  }

  ghost predicate Converts<V>(vars: map<string, V>, ms: seq<Member>, convert: (string, Yaml) -> Option<V>) {
    forall i :: 0 <= i < |ms| && Assigns(vars, ms[i]) ==> convert(ms[i].path, ms[i].node).Some?
  }

  // The value that a list of assignments leaves in a variable: that of the last member with its name, if any.
  function Final<V>(before: V, at: seq<Member>, convert: (string, Yaml) -> Option<V>): V {
    if at == [] then before
    else
      var v := convert(at[|at| - 1].path, at[|at| - 1].node);
      if v.Some? then v.value else before
  }

  lemma {:induction false} LastOneWins<V>(vars: map<string, V>, ms: seq<Member>,
                                          convert: (string, Yaml) -> Option<V>, name: string)
    requires Converts(vars, ms, convert) && name in vars
    ensures name in Assigned(vars, ms, convert).vars
    ensures Assigned(vars, ms, convert).vars[name]
            == if name == [] then vars[name] else Final(vars[name], At(ms, name), convert)
    decreases |ms|
  {
    if ms != [] {
      var m, rest := ms[0], ms[1..];
      if Assigns(vars, m) {
        var vars' := vars[m.path := convert(m.path, m.node).value];
        assert vars'.Keys == vars.Keys;
        LastOneWins(vars', rest, convert, name);
        assert Assigned(vars, ms, convert) == Assigned(vars', rest, convert);
      } else {
        LastOneWins(vars, rest, convert, name);
      }
      FinalOfTail(m, rest, name);
      if name != [] && m.path == name {
        ConvertsAt(vars, ms, convert, name);
      }
    }
  }

  lemma FinalOfTail(m: Member, rest: seq<Member>, name: string)
    ensures var at := At([m] + rest, name);
            at == (if m.path == name then [m] else []) + At(rest, name)
  {
    assert ([m] + rest)[1..] == rest;
  }

  /** The first conversion that fails ends the loading: the members before it have been assigned, and no others. */
  lemma {:induction false} StopsAtFirstFailure<V>(vars: map<string, V>, ms: seq<Member>, i: nat,
                                                  convert: (string, Yaml) -> Option<V>)
    requires i < |ms| && Converts(vars, ms[..i], convert)
    requires Assigns(vars, ms[i]) && convert(ms[i].path, ms[i].node).None?
    ensures Assigned(vars, ms, convert) == Loaded(Assigned(vars, ms[..i], convert).vars, false)
    decreases i
  {
    if i > 0 {
      var m := ms[0];
      assert ms[..i][0] == m && ms[..i][1..] == ms[1..][..i - 1];
      var vars' := if Assigns(vars, m) then vars[m.path := convert(m.path, m.node).value] else vars;
      assert vars'.Keys == vars.Keys;
      StopsAtFirstFailure(vars', ms[1..], i - 1, convert);
    }
  }

  // All members with the name of a variable convert.
  lemma {:induction false} ConvertsAt<V>(vars: map<string, V>, ms: seq<Member>,
                                         convert: (string, Yaml) -> Option<V>, name: string)
    requires Converts(vars, ms, convert) && name in vars && name != []
    ensures forall i :: 0 <= i < |At(ms, name)| ==>
              At(ms, name)[i].path == name && convert(name, At(ms, name)[i].node).Some?
    decreases |ms|
  {
    if ms != [] {
      ConvertsAt(vars, ms[1..], convert, name);
      if ms[0].path == name {
        assert Assigns(vars, ms[0]);
      }
    }
  }

  lemma {:induction false} EveryMemberIsThere(a: seq<Member>, b: seq<Member>, i: nat)
    requires multiset(a) == multiset(b) && i < |a|
    ensures a[i] in b
  {
    assert a[i] in multiset(a);
  }

  /** If all conversions succeed, loading gives each existing variable the same value as assigning in the order of
      the document: the last member with its name wins. No variable appears or disappears. */
  lemma LoadingFollowsDocument<V>(vars: map<string, V>, root: Yaml, convert: (string, Yaml) -> Option<V>)
    requires Converts(vars, Document(root, ""), convert)
    ensures Assigned(vars, Extracted(root, ""), convert) == Assigned(vars, Document(root, ""), convert)
    ensures Assigned(vars, Extracted(root, ""), convert).ok
    ensures Assigned(vars, Extracted(root, ""), convert).vars.Keys == vars.Keys
  {
    var a, b := Extracted(root, ""), Document(root, "");
    ExtractionIsStableSort(root);
    forall i | 0 <= i < |a| && Assigns(vars, a[i])
      ensures convert(a[i].path, a[i].node).Some?
    {
      EveryMemberIsThere(a, b, i);
    }
    AllConverted(vars, a, convert);
    AllConverted(vars, b, convert);
    forall name | name in vars
      ensures Assigned(vars, a, convert).vars[name] == Assigned(vars, b, convert).vars[name]
    {
      LastOneWins(vars, a, convert, name);
      LastOneWins(vars, b, convert, name);
    }
  }

  lemma {:induction false} AllConverted<V>(vars: map<string, V>, ms: seq<Member>,
                                           convert: (string, Yaml) -> Option<V>)
    requires Converts(vars, ms, convert)
    ensures Assigned(vars, ms, convert).ok && Assigned(vars, ms, convert).vars.Keys == vars.Keys
    decreases |ms|
  {
    if ms != [] {
      var vars' := if Assigns(vars, ms[0]) then vars[ms[0].path := convert(ms[0].path, ms[0].node).value] else vars;
      assert vars'.Keys == vars.Keys;
      AllConverted(vars', ms[1..], convert);
    }
  }
}
