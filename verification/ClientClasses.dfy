/** Networked variables: flattening a RecvTable tree into named properties and
    the per-class map of offsets built from it (src/offsets/clientclasses.cpp). */
module ClientClasses {
  import opened Machine

  datatype LeafType = DptInt | DptFloat | DptVector | DptVectorXY | DptString | DptArray

  // A property is a leaf or leads into a nested table (SendPropType::DPT_DataTable).
  datatype RecvProp =
    | Leaf(name: string, offset: int, leafType: LeafType)
    | SubTable(name: string, offset: int, table: RecvTable)

  datatype RecvTable = RecvTable(name: string, props: seq<RecvProp>)

  datatype ClientProp = ClientProp(offset: int, propType: LeafType)

  datatype ClientClass = ClientClass(name: string, table: RecvTable)

  // ---- Root-to-leaf paths, the reference the traversal is measured against ----

  /** A path names one property index per level. */
  type Path = seq<nat>

  predicate LeafPath(t: RecvTable, p: Path)
    decreases p
  {
    |p| > 0 && p[0] < |t.props| &&
    match t.props[p[0]]
    case Leaf(_, _, _) => |p| == 1
    case SubTable(_, _, sub) => LeafPath(sub, p[1..])
  }

  /** The properties met on the way down a path, the leaf last. */
  function Along(t: RecvTable, p: Path): (met: seq<RecvProp>)
    requires LeafPath(t, p)
    ensures |met| == |p| && met[|met| - 1].Leaf?
    ensures forall i :: 0 <= i < |met| - 1 ==> met[i].SubTable?
    decreases p
  {
    var prop := t.props[p[0]];
    match prop
    case Leaf(_, _, _) => [prop]
    case SubTable(_, _, sub) => [prop] + Along(sub, p[1..])
  }

  function Joined(words: seq<string>): string {
    if |words| == 0 then "" else if |words| == 1 then words[0] else words[0] + "::" + Joined(words[1..])
  }

  function Total(offsets: seq<int>): int {
    if |offsets| == 0 then 0 else offsets[0] + Total(offsets[1..])
  }

  // The part of the flattened name a property contributes: the name of the table
  // it leads into, not its own, unless it is the leaf.
  function Word(prop: RecvProp): string {
    match prop
    case Leaf(name, _, _) => name
    case SubTable(_, _, sub) => sub.name
  }

  function PathName(t: RecvTable, p: Path): string
    requires LeafPath(t, p)
  {
    var met := Along(t, p);
    Joined(seq(|met|, i requires 0 <= i < |met| => Word(met[i])))
  }

  function PathProp(t: RecvTable, p: Path): ClientProp
    requires LeafPath(t, p)
  {
    var met := Along(t, p);
    ClientProp(Total(seq(|met|, i requires 0 <= i < |met| => met[i].offset)), met[|met| - 1].leafType)
  }

  /** Depth-first order on paths. */
  predicate Before(p: Path, q: Path) {
    |p| > 0 && |q| > 0 && (p[0] < q[0] || (p[0] == q[0] && Before(p[1..], q[1..])))
  }

  // ---- Enumerating the leaf paths ----

  function Under(i: nat, paths: seq<Path>): seq<Path> {
    seq(|paths|, k requires 0 <= k < |paths| => [i] + paths[k])
  }

  function PropPaths(t: RecvTable, i: nat): seq<Path>
    requires i < |t.props|
    decreases t, 0
  {
    match t.props[i]
    case Leaf(_, _, _) => [[i]]
    case SubTable(_, _, sub) => Under(i, LeafPaths(sub, |sub.props|))
  }

  /** The leaf paths through the first n properties of a table. */
  function LeafPaths(t: RecvTable, n: nat): seq<Path>
    requires n <= |t.props|
    decreases t, 1, n
  {
    if n == 0 then [] else LeafPaths(t, n - 1) + PropPaths(t, n - 1)
  }

  function AllLeafPaths(t: RecvTable): seq<Path> {
    LeafPaths(t, |t.props|)
  }

  lemma {:induction false} PropPathsAreLeafPaths(t: RecvTable, i: nat)
    requires i < |t.props|
    ensures forall k :: 0 <= k < |PropPaths(t, i)| ==>
      LeafPath(t, PropPaths(t, i)[k]) && PropPaths(t, i)[k][0] == i
    decreases t, 0
  {
    match t.props[i]
    case Leaf(_, _, _) =>
    case SubTable(_, _, sub) =>
      var inner := LeafPaths(sub, |sub.props|);
      LeafPathsAreLeafPaths(sub, |sub.props|);
      forall k | 0 <= k < |inner|
        ensures LeafPath(t, PropPaths(t, i)[k]) && PropPaths(t, i)[k][0] == i
      {
        assert ([i] + inner[k])[1..] == inner[k];
      }
  }

  lemma {:induction false} LeafPathsAreLeafPaths(t: RecvTable, n: nat)
    requires n <= |t.props|
    ensures forall k :: 0 <= k < |LeafPaths(t, n)| ==>
      LeafPath(t, LeafPaths(t, n)[k]) && LeafPaths(t, n)[k][0] < n
    decreases t, 1, n
  {
    if n > 0 {
      LeafPathsAreLeafPaths(t, n - 1);
      PropPathsAreLeafPaths(t, n - 1);
    }
  }

  lemma {:induction false} EveryLeafPathListed(t: RecvTable, n: nat, p: Path)
    requires n <= |t.props| && LeafPath(t, p) && p[0] < n
    ensures p in LeafPaths(t, n)
    decreases t, n
  {
    if p[0] < n - 1 {
      EveryLeafPathListed(t, n - 1, p);
    } else {
      match t.props[n - 1]
      case Leaf(_, _, _) => assert p == [n - 1];
      case SubTable(_, _, sub) =>
        EveryLeafPathListed(sub, |sub.props|, p[1..]);
        var inner := LeafPaths(sub, |sub.props|);
        var k :| 0 <= k < |inner| && inner[k] == p[1..];
        assert PropPaths(t, n - 1)[k] == p;
    }
  }

  lemma {:induction false} PropPathsOrdered(t: RecvTable, i: nat)
    requires i < |t.props|
    ensures forall j, k :: 0 <= j < k < |PropPaths(t, i)| ==> Before(PropPaths(t, i)[j], PropPaths(t, i)[k])
    decreases t, 0
  {
    match t.props[i]
    case Leaf(_, _, _) =>
    case SubTable(_, _, sub) =>
      var inner := LeafPaths(sub, |sub.props|);
      LeafPathsOrdered(sub, |sub.props|);
      forall j, k | 0 <= j < k < |inner|
        ensures Before(PropPaths(t, i)[j], PropPaths(t, i)[k])
      {
        assert ([i] + inner[j])[1..] == inner[j] && ([i] + inner[k])[1..] == inner[k];
      }
  }

  lemma {:induction false} LeafPathsOrdered(t: RecvTable, n: nat)
    requires n <= |t.props|
    ensures forall j, k :: 0 <= j < k < |LeafPaths(t, n)| ==> Before(LeafPaths(t, n)[j], LeafPaths(t, n)[k])
    decreases t, 1, n
  {
    if n > 0 {
      LeafPathsOrdered(t, n - 1);
      PropPathsOrdered(t, n - 1);
      LeafPathsAreLeafPaths(t, n - 1);
      PropPathsAreLeafPaths(t, n - 1);
    }
  }

  /** AllLeafPaths lists exactly the leaf paths, each once, in depth-first order. */
  lemma AllLeafPathsExact(t: RecvTable)
    ensures forall p :: p in AllLeafPaths(t) <==> LeafPath(t, p)
    ensures forall j, k :: 0 <= j < k < |AllLeafPaths(t)| ==> Before(AllLeafPaths(t)[j], AllLeafPaths(t)[k])
  {
    LeafPathsAreLeafPaths(t, |t.props|);
    LeafPathsOrdered(t, |t.props|);
    forall p | LeafPath(t, p)
      ensures p in AllLeafPaths(t)
    {
      EveryLeafPathListed(t, |t.props|, p);
    }
  }

  // ---- The traversal ----

  function EntryAt(t: RecvTable, p: Path): (string, ClientProp)
    requires LeafPath(t, p)
  {
    (PathName(t, p), PathProp(t, p))
  }

  /** The entries are those of the listed paths, in order. */
  ghost predicate Flattens(t: RecvTable, paths: seq<Path>, entries: seq<(string, ClientProp)>) {
    |entries| == |paths| &&
    forall k :: 0 <= k < |paths| ==> LeafPath(t, paths[k]) && entries[k] == EntryAt(t, paths[k])
  }

  lemma EnterSubTable(t: RecvTable, i: nat, p: Path)
    requires i < |t.props| && t.props[i].SubTable? && LeafPath(t.props[i].table, p)
    ensures LeafPath(t, [i] + p)
    ensures PathName(t, [i] + p) == t.props[i].table.name + "::" + PathName(t.props[i].table, p)
    ensures PathProp(t, [i] + p) ==
            ClientProp(t.props[i].offset + PathProp(t.props[i].table, p).offset,
                       PathProp(t.props[i].table, p).propType)
  {
    var sub := t.props[i].table;
    assert ([i] + p)[1..] == p;
    var outer, inner := Along(t, [i] + p), Along(sub, p);
    assert outer == [t.props[i]] + inner;
    var words := seq(|outer|, k requires 0 <= k < |outer| => Word(outer[k]));
    assert words[1..] == seq(|inner|, k requires 0 <= k < |inner| => Word(inner[k]));
    var offsets := seq(|outer|, k requires 0 <= k < |outer| => outer[k].offset);
    assert offsets[1..] == seq(|inner|, k requires 0 <= k < |inner| => inner[k].offset);
  }

  lemma LeafEntry(t: RecvTable, i: nat)
    requires i < |t.props| && t.props[i].Leaf?
    ensures LeafPath(t, [i])
    ensures EntryAt(t, [i]) == (t.props[i].name, ClientProp(t.props[i].offset, t.props[i].leafType))
  {
    var met := Along(t, [i]);
    assert met == [t.props[i]];
    var words := seq(|met|, k requires 0 <= k < |met| => Word(met[k]));
    assert words == [t.props[i].name];
    assert PathName(t, [i]) == Joined(words);
    var offsets := seq(|met|, k requires 0 <= k < |met| => met[k].offset);
    assert offsets == [t.props[i].offset] && offsets[1..] == [];
    assert PathProp(t, [i]).offset == Total(offsets);
  }

  lemma FlattensNothing(t: RecvTable)
    ensures Flattens(t, [], [])
  {
  }

  lemma SameLength(t: RecvTable, paths: seq<Path>, entries: seq<(string, ClientProp)>)
    requires Flattens(t, paths, entries)
    ensures |entries| == |paths|
  {
  }

  lemma EntryOf(t: RecvTable, paths: seq<Path>, entries: seq<(string, ClientProp)>, k: nat)
    requires Flattens(t, paths, entries) && k < |paths|
    ensures LeafPath(t, paths[k]) && k < |entries| && entries[k] == EntryAt(t, paths[k])
  {
  }

  lemma EnterEntry(t: RecvTable, i: nat, p: Path)
    requires i < |t.props| && t.props[i].SubTable? && LeafPath(t.props[i].table, p)
    ensures LeafPath(t, [i] + p)
    ensures var (name, prop) := EntryAt(t.props[i].table, p);
            EntryAt(t, [i] + p) == (t.props[i].table.name + "::" + name,
                                    ClientProp(t.props[i].offset + prop.offset, prop.propType))
  {
    hide PathName, PathProp;
    EnterSubTable(t, i, p);
  }

  lemma FlattensOneMore(t: RecvTable, paths: seq<Path>, entries: seq<(string, ClientProp)>, p: Path)
    requires Flattens(t, paths, entries) && LeafPath(t, p)
    ensures Flattens(t, paths + [p], entries + [EntryAt(t, p)])
  {
    hide LeafPath, EntryAt;
  }

  /** clientclasses::parse_tbl: what the generator yields is one entry per
      root-to-leaf path, depth first. */
  method ParseTbl(t: RecvTable) returns (entries: seq<(string, ClientProp)>)
    ensures Flattens(t, AllLeafPaths(t), entries)
    decreases t
  {
    hide Flattens, LeafPath, EntryAt;
    FlattensNothing(t);
    entries := [];
    for idx := 0 to |t.props|
      invariant Flattens(t, LeafPaths(t, idx), entries)
    {
      var prop := t.props[idx];
      ghost var before := LeafPaths(t, idx);
      if prop.SubTable? {
        var subtable := prop.table;
        var parsed := ParseTbl(subtable);
        ghost var inner := AllLeafPaths(subtable);
        SameLength(subtable, inner, parsed);
        ghost var here := Under(idx, inner);
        assert before + here[..0] == before;
        for k := 0 to |parsed|
          invariant Flattens(t, before + here[..k], entries)
        {
          EntryOf(subtable, inner, parsed, k);
          EnterEntry(t, idx, inner[k]);
          FlattensOneMore(t, before + here[..k], entries, here[k]);
          assert before + here[..k + 1] == before + here[..k] + [here[k]];
          var (name, subprop) := parsed[k];
          entries := entries + [(subtable.name + "::" + name,
                                 ClientProp(prop.offset + subprop.offset, subprop.propType))];
        }
        assert here[..|parsed|] == here;
      } else {
        LeafEntry(t, idx);
        FlattensOneMore(t, before, entries, [idx]);
        entries := entries + [(prop.name, ClientProp(prop.offset, prop.leafType))];
      }
    }
  }

  // ---- The map of all classes ----

  type PropMap = map<string, map<string, ClientProp>>

  /** One leaf of one class: the k-th class of the list and a path in its table. */
  datatype Site = Site(k: nat, path: Path)

  predicate IsSite(classes: seq<ClientClass>, s: Site) {
    s.k < |classes| && LeafPath(classes[s.k].table, s.path)
  }

  predicate Earlier(s: Site, s': Site) {
    s.k < s'.k || (s.k == s'.k && Before(s.path, s'.path))
  }

  function Key(classes: seq<ClientClass>, s: Site): (string, string)
    requires IsSite(classes, s)
  {
    (classes[s.k].name, PathName(classes[s.k].table, s.path))
  }

  function Value(classes: seq<ClientClass>, s: Site): ClientProp
    requires IsSite(classes, s)
  {
    PathProp(classes[s.k].table, s.path)
  }

  function Lookup(m: PropMap, key: (string, string)): Option<ClientProp> {
    if key.0 in m && key.1 in m[key.0] then Some(m[key.0][key.1]) else None
  }

  // The last of the sites with a given key.
  predicate LastWithKey(classes: seq<ClientClass>, sites: seq<Site>, i: nat)
    requires forall s :: s in sites ==> IsSite(classes, s)
  {
    i < |sites| && forall j :: i < j < |sites| ==> Key(classes, sites[j]) != Key(classes, sites[i])
  }

  /** The map holds, under each key that some listed site has, the value of the
      last such site, and nothing else. */
  ghost predicate Built(m: PropMap, classes: seq<ClientClass>, sites: seq<Site>) {
    (forall s :: s in sites ==> IsSite(classes, s)) &&
    (forall i: nat :: LastWithKey(classes, sites, i) ==>
                   Lookup(m, Key(classes, sites[i])) == Some(Value(classes, sites[i]))) &&
    (forall key :: (forall s :: s in sites ==> Key(classes, s) != key) ==> Lookup(m, key) == None) &&
    (forall c :: c in m ==> m[c] != map[])
  }

  // clientclasses[class_name][prop_name] = prop
  function Assign(m: PropMap, key: (string, string), prop: ClientProp): PropMap {
    m[key.0 := (if key.0 in m then m[key.0] else map[])[key.1 := prop]]
  }

  lemma {:induction false} AssignKeepsBuilt(m: PropMap, classes: seq<ClientClass>, sites: seq<Site>, s: Site)
    requires Built(m, classes, sites) && IsSite(classes, s)
    ensures Built(Assign(m, Key(classes, s), Value(classes, s)), classes, sites + [s])
  {
    hide IsSite, Key, Value;
    var key := Key(classes, s);
    var m' := Assign(m, key, Value(classes, s));
    var sites' := sites + [s];
    assert forall other :: other != key ==> Lookup(m', other) == Lookup(m, other);
    assert Lookup(m', key) == Some(Value(classes, s));
    forall i: nat | LastWithKey(classes, sites', i)
      ensures Lookup(m', Key(classes, sites'[i])) == Some(Value(classes, sites'[i]))
    {
      if i < |sites| {
        assert sites'[|sites|] == s;
        assert forall j :: i < j < |sites| ==> sites'[j] == sites[j];
        assert LastWithKey(classes, sites, i);
      }
    }
    forall other | forall s' :: s' in sites' ==> Key(classes, s') != other
      ensures Lookup(m', other) == None
    {
      assert s in sites';
      assert forall s' :: s' in sites ==> s' in sites';
    }
    assert key.1 in m'[key.0];
  }

  lemma NothingBuilt(classes: seq<ClientClass>)
    ensures Built(map[], classes, [])
  {
  }

  function ClassSites(classes: seq<ClientClass>, k: nat): seq<Site>
    requires k < |classes|
  {
    var paths := AllLeafPaths(classes[k].table);
    seq(|paths|, i requires 0 <= i < |paths| => Site(k, paths[i]))
  }

  function Sites(classes: seq<ClientClass>, n: nat): seq<Site>
    requires n <= |classes|
  {
    if n == 0 then [] else Sites(classes, n - 1) + ClassSites(classes, n - 1)
  }

  lemma ClassSitesExact(classes: seq<ClientClass>, k: nat)
    requires k < |classes|
    ensures forall s :: s in ClassSites(classes, k) <==> IsSite(classes, s) && s.k == k
    ensures forall i, j :: 0 <= i < j < |ClassSites(classes, k)| ==>
      Earlier(ClassSites(classes, k)[i], ClassSites(classes, k)[j])
  {
    hide LeafPath, Before, AllLeafPaths;
    var here, paths := ClassSites(classes, k), AllLeafPaths(classes[k].table);
    AllLeafPathsExact(classes[k].table);
    forall s | IsSite(classes, s) && s.k == k
      ensures s in here
    {
      var i :| 0 <= i < |paths| && paths[i] == s.path;
      assert here[i] == s;
    }
    assert forall i :: 0 <= i < |here| ==> here[i] == Site(k, paths[i]) && paths[i] in paths;
  }

  lemma {:induction false} SitesMembers(classes: seq<ClientClass>, n: nat)
    requires n <= |classes|
    ensures forall s :: s in Sites(classes, n) <==> IsSite(classes, s) && s.k < n
  {
    if n > 0 {
      hide ClassSites, IsSite;
      SitesMembers(classes, n - 1);
      ClassSitesExact(classes, n - 1);
    }
  }

  /** Sites lists exactly the sites of the first n classes, in order. */
  lemma {:induction false} SitesExact(classes: seq<ClientClass>, n: nat)
    requires n <= |classes|
    ensures forall s :: s in Sites(classes, n) <==> IsSite(classes, s) && s.k < n
    ensures forall i, j :: 0 <= i < j < |Sites(classes, n)| ==>
      Earlier(Sites(classes, n)[i], Sites(classes, n)[j])
  {
    hide ClassSites, IsSite, Before;
    SitesMembers(classes, n);
    if n > 0 {
      SitesExact(classes, n - 1);
      ClassSitesExact(classes, n - 1);
      var before, here := Sites(classes, n - 1), ClassSites(classes, n - 1);
      assert forall i :: 0 <= i < |before| ==> before[i] in before;
      assert forall i :: 0 <= i < |here| ==> here[i] in here;
    }
  }

  class ClientClassManager {
    var clientclasses: PropMap

    ghost predicate Represents(classes: seq<ClientClass>)
      reads this
    {
      Built(clientclasses, classes, Sites(classes, |classes|))
    }

    constructor (classes: seq<ClientClass>)
      ensures Represents(classes)
    {
      hide Built, Assign;
      clientclasses := map[];
      new;
      NothingBuilt(classes);
      for c := 0 to |classes|
        invariant Built(clientclasses, classes, Sites(classes, c))
      {
        var clientClass := classes[c];
        var entries := ParseTbl(clientClass.table);
        ghost var before, here := Sites(classes, c), ClassSites(classes, c);
        assert before + here[..0] == before;
        for i := 0 to |entries|
          invariant Built(clientclasses, classes, before + here[..i])
        {
          AssignKeepsBuilt(clientclasses, classes, before + here[..i], here[i]);
          assert before + here[..i + 1] == before + (here[..i] + [here[i]]) == before + here[..i] + [here[i]];
          clientclasses := Assign(clientclasses, (clientClass.name, entries[i].0), entries[i].1);
        }
        assert here[..|entries|] == here;
      }
    }

    method GetPropOffset(className: string, propName: string) returns (r: Result<int>)
      ensures r == match Lookup(clientclasses, (className, propName))
                   case Some(prop) => Ok(prop.offset)
                   case None => Err(OutOfRange)
    {
      if className !in clientclasses {
        return Err(OutOfRange);
      }
      var props := clientclasses[className];
      if propName !in props {
        return Err(OutOfRange);
      }
      return Ok(props[propName].offset);
    }
  }

  lemma LastInOrder(classes: seq<ClientClass>, sites: seq<Site>, i: nat)
    requires forall s :: s in sites ==> IsSite(classes, s)
    requires forall j, k :: 0 <= j < k < |sites| ==> Earlier(sites[j], sites[k])
    requires i < |sites|
    requires forall s' :: IsSite(classes, s') && Earlier(sites[i], s') ==> Key(classes, s') != Key(classes, sites[i])
    ensures LastWithKey(classes, sites, i)
  {
    hide IsSite, Key, Earlier;
    assert forall j :: 0 <= j < |sites| ==> sites[j] in sites;
  }

  /** What the finished map answers for a class and a flattened name: the offset and type of the
      last path, over all classes in order, whose class and name they are. */
  lemma {:induction false} LastSiteWins(m: PropMap, classes: seq<ClientClass>, s: Site)
    requires Built(m, classes, Sites(classes, |classes|)) && IsSite(classes, s)
    requires forall s' :: IsSite(classes, s') && Earlier(s, s') ==>
               classes[s'.k].name != classes[s.k].name ||
               PathName(classes[s'.k].table, s'.path) != PathName(classes[s.k].table, s.path)
    ensures var className, propName := classes[s.k].name, PathName(classes[s.k].table, s.path);
            && className in m && propName in m[className]
            && m[className][propName] == PathProp(classes[s.k].table, s.path)
  {
    hide PathName, PathProp, Earlier, LeafPath;
    var sites := Sites(classes, |classes|);
    SitesExact(classes, |classes|);
    assert s in sites;
    var i :| 0 <= i < |sites| && sites[i] == s;
    LastInOrder(classes, sites, i);
    assert Lookup(m, Key(classes, s)) == Some(Value(classes, s));
  }

  lemma LastIsFound(m: PropMap, classes: seq<ClientClass>, sites: seq<Site>, i: nat)
    requires Built(m, classes, sites) && LastWithKey(classes, sites, i)
    ensures Lookup(m, Key(classes, sites[i])) == Some(Value(classes, sites[i]))
  {
  }

  /** A lookup fails if and only if no leaf of any class of that name has that name. */
  lemma {:induction false} MissingExactly(m: PropMap, classes: seq<ClientClass>, key: (string, string))
    requires Built(m, classes, Sites(classes, |classes|))
    ensures !(key.0 in m && key.1 in m[key.0]) <==>
            forall s :: IsSite(classes, s) ==>
              classes[s.k].name != key.0 || PathName(classes[s.k].table, s.path) != key.1
  {
    NoKeyExactly(m, classes, key);
  }

  lemma {:induction false} NoKeyExactly(m: PropMap, classes: seq<ClientClass>, key: (string, string))
    requires Built(m, classes, Sites(classes, |classes|))
    ensures Lookup(m, key) == None <==> forall s :: IsSite(classes, s) ==> Key(classes, s) != key
  {
    hide Key, Lookup, LeafPath, Earlier, LastWithKey;
    var sites := Sites(classes, |classes|);
    SitesExact(classes, |classes|);
    if s :| s in sites && Key(classes, s) == key {
      var i := LastIndexWithKey(classes, sites, key);
      LastIsFound(m, classes, sites, i);
    }
  }

  lemma {:induction false} LastIndexWithKey(classes: seq<ClientClass>, sites: seq<Site>, key: (string, string))
    returns (i: nat)
    requires forall s :: s in sites ==> IsSite(classes, s)
    requires exists s :: s in sites && Key(classes, s) == key
    ensures LastWithKey(classes, sites, i) && Key(classes, sites[i]) == key
  {
    hide IsSite, Key;
    var n := |sites| - 1;
    if Key(classes, sites[n]) == key {
      i := n;
    } else {
      i := LastIndexWithKey(classes, sites[..n], key);
      assert forall j :: i < j < n ==> sites[..n][j] == sites[j];
    }
  }
}
