/** Building the rule map: interning, the pointer-keyed memo and the tree (src/dns_rule.rs). */
module RuleStore {
  import opened Common
  import opened WireNames
  import opened DomainIndex
  import opened DomainRules
  import opened RuleWalks
  import opened RuleTree

  // ---- What the configuration says ----

  datatype Domain<W> = Name(name: WildcardName<W>) | Set(setName: string)

  // The seven configuration lists (domain-rules, address, forward, cname, srv, https, nftset) are
  // read one after another, so they form one sequence of lines, each updating every name it covers.
  datatype Line<W> = Line(domain: Domain<W>, update: Update)

  type DomainSets<!W(==)> = map<string, set<WildcardName<W>>>

  function ExpandDomain<W(==)>(d: Domain<W>, sets: DomainSets<W>): set<WildcardName<W>> {
    match d
    case Name(n) => {n}
    case Set(s) => if s in sets then sets[s] else {}
  }

  function RuleFor<W(==)>(own: map<WildcardName<W>, DomainRule>, n: WildcardName<W>): DomainRule {
    if n in own then own[n] else EMPTY_RULE
  }

  /** One line applied to all the names it covers. */
  function ApplyLine<W(==)>(own: map<WildcardName<W>, DomainRule>, covered: set<WildcardName<W>>,
                            u: Update): map<WildcardName<W>, DomainRule> {
    map n | n in own.Keys + covered :: if n in covered then Apply(u, RuleFor(own, n)) else own[n]
  }

  /** The rule written for each name. */
  function Own<W(==)>(lines: seq<Line<W>>, sets: DomainSets<W>): map<WildcardName<W>, DomainRule> {
    if lines == [] then map[]
    else
      var last := lines[|lines| - 1];
      ApplyLine(Own(lines[..|lines| - 1], sets), ExpandDomain(last.domain, sets), last.update)
  }

  /** The updates of the lines that cover one name, in order. */
  function UpdatesFor<W(==)>(lines: seq<Line<W>>, sets: DomainSets<W>, n: WildcardName<W>): seq<Update> {
    if lines == [] then []
    else
      var last := lines[|lines| - 1];
      UpdatesFor(lines[..|lines| - 1], sets, n) + if n in ExpandDomain(last.domain, sets) then [last.update] else []
  }

  function Fold(us: seq<Update>): DomainRule {
    if us == [] then EMPTY_RULE else Apply(us[|us| - 1], Fold(us[..|us| - 1]))
  }

  /** A name's rule is the fold of its own updates, whatever the lines do to other names. */
  lemma {:induction false} OwnIsFold<W>(lines: seq<Line<W>>, sets: DomainSets<W>, n: WildcardName<W>)
    ensures n in Own(lines, sets) <==> UpdatesFor(lines, sets, n) != []
    ensures RuleFor(Own(lines, sets), n) == Fold(UpdatesFor(lines, sets, n))
  {
    hide Apply;
    if lines != [] {
      var rest, last := lines[..|lines| - 1], lines[|lines| - 1];
      OwnIsFold(rest, sets, n);
      var us, before := UpdatesFor(lines, sets, n), UpdatesFor(rest, sets, n);
      if n in ExpandDomain(last.domain, sets) {
        assert us == before + [last.update] && us[..|us| - 1] == before;
      } else {
        assert us == before;
      }
    }
  }

  // ---- What the lines give each name ----

  /** The line is written for this name or for a set that has it. */
  predicate Covers<W(==)>(line: Line<W>, sets: DomainSets<W>, n: WildcardName<W>) {
    match line.domain
    case Name(m) => n == m
    case Set(s) => s in sets && n in sets[s]
  }

  predicate SetsOption<W(==)>(lines: seq<Line<W>>, sets: DomainSets<W>, n: WildcardName<W>, o: Setting, i: nat) {
    i < |lines| && Covers(lines[i], sets, n) && Given(o, lines[i].update).Some?
  }

  /** No later line for the name sets the option. */
  ghost predicate SetLast<W>(lines: seq<Line<W>>, sets: DomainSets<W>, n: WildcardName<W>, o: Setting, i: nat) {
    SetsOption(lines, sets, n, o, i) && forall j :: i < j < |lines| ==> !SetsOption(lines, sets, n, o, j)
  }

  /** Each option of a name is what the last line for it that sets the option gives, and unset when none does. */
  lemma {:induction false} OwnOption<W>(lines: seq<Line<W>>, sets: DomainSets<W>, n: WildcardName<W>, o: Setting)
    requires Single(o)
    ensures var v := Read(o, RuleFor(Own(lines, sets), n));
            && (v.None? <==> forall i: nat :: !SetsOption(lines, sets, n, o, i))
            && forall i: nat :: SetLast(lines, sets, n, o, i) ==> v == Given(o, lines[i].update)
  {
    hide Read, Given, Apply, Covers;
    if lines == [] {
      ApplyOption(o, SetAddress(SOA), EMPTY_RULE);
    } else {
      var k := |lines| - 1;
      var rest := lines[..k];
      OwnOption(rest, sets, n, o);
      OwnStep(lines, sets, n, o);
      forall i: nat | i != k ensures SetsOption(rest, sets, n, o, i) <==> SetsOption(lines, sets, n, o, i) {
        if i < k { assert rest[i] == lines[i]; }
      }
      assert !SetsOption(rest, sets, n, o, k);
      if !SetsOption(lines, sets, n, o, k) {
        assert forall i: nat :: SetsOption(rest, sets, n, o, i) <==> SetsOption(lines, sets, n, o, i);
        assert forall i: nat :: SetLast(lines, sets, n, o, i) ==> i < k && SetLast(rest, sets, n, o, i);
      }
    }
  }

  lemma OwnStep<W>(lines: seq<Line<W>>, sets: DomainSets<W>, n: WildcardName<W>, o: Setting)
    requires Single(o) && lines != []
    ensures var k := |lines| - 1;
            Read(o, RuleFor(Own(lines, sets), n)) ==
            if SetsOption(lines, sets, n, o, k) then Given(o, lines[k].update)
            else Read(o, RuleFor(Own(lines[..k], sets), n))
  {
    hide Read, Given, Apply, Covers;
    var k := |lines| - 1;
    ApplyOption(o, lines[k].update, RuleFor(Own(lines[..k], sets), n));
    CoversIsExpanded(lines[k], sets, n);
  }

  lemma CoversIsExpanded<W>(line: Line<W>, sets: DomainSets<W>, n: WildcardName<W>)
    ensures Covers(line, sets, n) <==> n in ExpandDomain(line.domain, sets)
  {
  }

  /** The names with a rule are those some line covers. */
  lemma {:induction false} OwnNames<W>(lines: seq<Line<W>>, sets: DomainSets<W>, n: WildcardName<W>)
    ensures n in Own(lines, sets) <==> exists i :: 0 <= i < |lines| && Covers(lines[i], sets, n)
  {
    hide Apply, Covers;
    if lines != [] {
      var k := |lines| - 1;
      OwnNames(lines[..k], sets, n);
      CoversIsExpanded(lines[k], sets, n);
      assert forall i :: 0 <= i < k ==> lines[..k][i] == lines[i];
    }
  }

  predicate SetsTexts<W(==)>(lines: seq<Line<W>>, sets: DomainSets<W>, n: WildcardName<W>, i: nat) {
    i < |lines| && Covers(lines[i], sets, n) && TextsGiven(lines[i].update).Some?
  }

  /** The texts of all lines for a name, in order. */
  function AllTexts<W(==)>(lines: seq<Line<W>>, sets: DomainSets<W>, n: WildcardName<W>): seq<string> {
    if lines == [] then []
    else
      var k := |lines| - 1;
      AllTexts(lines[..k], sets, n) + if SetsTexts(lines, sets, n, k) then TextsGiven(lines[k].update).value else []
  }

  /** `txt` lines add up. */
  lemma {:induction false} OwnTexts<W>(lines: seq<Line<W>>, sets: DomainSets<W>, n: WildcardName<W>)
    ensures var texts := RuleFor(Own(lines, sets), n).txt;
            && (texts.None? <==> forall i: nat :: !SetsTexts(lines, sets, n, i))
            && (texts.Some? ==> texts.value == AllTexts(lines, sets, n))
            && (texts.None? ==> AllTexts(lines, sets, n) == [])
  {
    hide TextsGiven, Apply, Covers;
    if lines != [] {
      var k := |lines| - 1;
      OwnTexts(lines[..k], sets, n);
      ApplyTexts(lines[k].update, RuleFor(Own(lines[..k], sets), n));
      CoversIsExpanded(lines[k], sets, n);
      assert forall i: nat :: i < k ==> (SetsTexts(lines[..k], sets, n, i) <==> SetsTexts(lines, sets, n, i));
      if SetsTexts(lines, sets, n, k) { assert [] + TextsGiven(lines[k].update).value ==
          TextsGiven(lines[k].update).value; }
    } else {
      ApplyTexts(SetAddress(SOA), EMPTY_RULE);
    }
  }

  const GROUP: Setting := Plain(Nameserver)

  /** No line sets a nameserver for the name. */
  ghost predicate NoGroup<W>(lines: seq<Line<W>>, sets: DomainSets<W>, n: WildcardName<W>) {
    forall i: nat :: !SetsOption(lines, sets, n, GROUP, i)
  }

  /** Line `i` gives the name this group, and no later line for the name gives another. */
  ghost predicate GivesGroup<W>(lines: seq<Line<W>>, sets: DomainSets<W>, n: WildcardName<W>, i: nat, group: string) {
    SetLast(lines, sets, n, GROUP, i) && Given(GROUP, lines[i].update) == Some(Text(group))
  }

  /** In the finished tree a name's group is the last one the lines give the nearest name of its chain that is given
      any, and there is none when no name of the chain is given one. */
  lemma GroupAsConfigured<W>(isMatch: Matcher<W>, names: seq<WildcardName<W>>, lines: seq<Line<W>>, sets: DomainSets<W>,
                             p: WildcardName<W>, k: nat, i: nat, group: string)
    requires p in Own(lines, sets) && forall j :: 0 <= j < |names| ==> names[j] in Own(lines, sets)
    ensures var chain := Chain(isMatch, names, p);
            var found := GroupOnChain(Rules(Some(TreeNode(isMatch, names, Own(lines, sets), p))));
            && (found.None? <==> forall j :: 0 <= j < |chain| ==> NoGroup(lines, sets, chain[j]))
            && (k < |chain| && GivesGroup(lines, sets, chain[k], i, group) ==>
                  (forall j :: 0 <= j < k ==> NoGroup(lines, sets, chain[j])) ==> found == Some(group))
  {
    var own, chain := Own(lines, sets), Chain(isMatch, names, p);
    var written := Written(own, chain);
    TreeNodeIsMerged(isMatch, names, own, p);
    GroupOnMergedChain(written);
    GroupIsFirst(written);
    hide Own, TreeNode, Chain, GroupOnChain, SetsOption, Given, Merged, MergedChain, Rules;
    forall j | 0 <= j < |chain|
      ensures written[j].nameserver.None? <==> NoGroup(lines, sets, chain[j])
      ensures GivesGroup(lines, sets, chain[j], i, group) ==> written[j].nameserver == Some(group)
    {
      OwnOption(lines, sets, chain[j], GROUP);
      assert written[j] == RuleFor(own, chain[j]);
    }
  }

  // ---- Rules as shared objects ----

  lemma {:induction false} Bounded(s: set<nat>) returns (b: nat)
    ensures forall k :: k in s ==> k < b
  {
    if s == {} {
      b := 0;
    } else {
      var k :| k in s;
      var rest := Bounded(s - {k});
      b := Max(rest, k + 1);
      forall x | x in s ensures x < b { if x != k { assert x in s - {k}; } }
    }
  }

  /** Rules live at addresses; an address is free again once nothing holds its rule. The interning table is keyed
      by the rule's hash code, which is taken to be free of collisions. */
  datatype Memory = Memory(heap: map<nat, DomainRule>, table: map<DomainRule, nat>)
  {
    ghost predicate Valid() { forall r :: r in table ==> table[r] in heap && heap[table[r]] == r }

    /** The table holds the rule at this address. */
    predicate Retained(a: nat) { a in heap && heap[a] in table && table[heap[a]] == a }

    function At(a: nat): DomainRule { if a in heap then heap[a] else EMPTY_RULE }

    /** The interning table only ever gains rules. */
    ghost predicate GrewTo(m: Memory) { forall r :: r in table ==> r in m.table && m.table[r] == table[r] }
  }

  /** Held rules stay where and what they are while the table only grows. */
  lemma RetainedStays(m: Memory, m': Memory, a: nat)
    requires m.Valid() && m'.Valid() && m.GrewTo(m') && m.Retained(a)
    ensures m'.Retained(a) && m'.At(a) == m.At(a)
  {
  }

  class Store {
    var mem: Memory

    constructor ()
      ensures mem == Memory(map[], map[])
    {
      mem := Memory(map[], map[]);
    }

    /** The one shared object for a rule. */
    method Intern(rule: DomainRule) returns (a: nat)
      requires mem.Valid()
      modifies this
      ensures mem.Valid() && old(mem).GrewTo(mem) && mem.Retained(a) && mem.At(a) == rule
    {
      if rule in mem.table { return mem.table[rule]; }
      ghost var b := Bounded(mem.heap.Keys);
      assert b !in mem.heap;
      a :| a !in mem.heap;
      mem := Memory(mem.heap[a := rule], mem.table[rule := a]);
    }

    /** Frees any addresses the table does not hold, for later rules to use again. */
    method Reclaim()
      requires mem.Valid()
      modifies this
      ensures mem.Valid() && old(mem).GrewTo(mem)
    {
      var table := mem.table;
      assert {} !! table.Values;
      var freed: set<nat> :| freed <= mem.heap.Keys && freed !! table.Values;
      forall r | r in table ensures table[r] !in freed { assert table[r] in table.Values; }
      mem := mem.(heap := mem.heap - freed);
    }
  }

  // ---- Rules by name ----

  /** Each name's shared rule is held and is the one `own` gives. */
  ghost predicate Holds<W(!new)>(m: Memory, rules: map<WildcardName<W>, nat>, own: map<WildcardName<W>, DomainRule>) {
    && (forall n :: n in rules <==> n in own)
    && (forall n :: n in rules ==> m.Retained(rules[n]) && m.At(rules[n]) == own[n])
  }

  lemma HoldsStays<W(!new)>(m: Memory, m': Memory, rules: map<WildcardName<W>, nat>,
                            own: map<WildcardName<W>, DomainRule>)
    requires m.Valid() && m'.Valid() && m.GrewTo(m') && Holds(m, rules, own)
    ensures Holds(m', rules, own)
  {
  }

  /** Updates one name's rule and no other's: the shared object is copied, changed and interned anew. */
  method UpdateRule<W(!new, ==)>(store: Store, rules: map<WildcardName<W>, nat>, name: WildcardName<W>, u: Update,
                                 ghost own: map<WildcardName<W>, DomainRule>)
    returns (r: map<WildcardName<W>, nat>)
    requires store.mem.Valid() && Holds(store.mem, rules, own)
    modifies store
    ensures store.mem.Valid() && old(store.mem).GrewTo(store.mem)
    ensures Holds(store.mem, r, own[name := Apply(u, RuleFor(own, name))])
  {
    hide Apply;
    var rule := if name in rules then store.mem.At(rules[name]) else EMPTY_RULE;
    assert rule == RuleFor(own, name);
    var a := store.Intern(Apply(u, rule));
    HoldsStays(old(store.mem), store.mem, rules, own);
    r := rules[name := a];
  }

  /** Applies a line to each name it covers, in whatever order the set gives. */
  method UpdateAll<W(!new, ==)>(store: Store, rules: map<WildcardName<W>, nat>, covered: set<WildcardName<W>>,
                                u: Update,
                                ghost own: map<WildcardName<W>, DomainRule>)
    returns (r: map<WildcardName<W>, nat>)
    requires store.mem.Valid() && Holds(store.mem, rules, own)
    modifies store
    ensures store.mem.Valid() && Holds(store.mem, r, ApplyLine(own, covered, u))
  {
    hide Apply, Holds;
    r := rules;
    var left := covered;
    assert ApplyLine(own, covered - left, u) == own;
    while left != {}
      invariant left <= covered && store.mem.Valid()
      invariant Holds(store.mem, r, ApplyLine(own, covered - left, u))
      decreases left
    {
      var n :| n in left;
      ApplyOne(own, covered - (left - {n}), n, u);
      assert covered - (left - {n}) - {n} == covered - left;
      r := UpdateRule(store, r, n, u, ApplyLine(own, covered - left, u));
      left := left - {n};
    }
    assert covered - left == covered;
  }

  lemma ApplyOne<W>(own: map<WildcardName<W>, DomainRule>, done: set<WildcardName<W>>, n: WildcardName<W>, u: Update)
    requires n in done
    ensures ApplyLine(own, done, u) ==
            ApplyLine(own, done - {n}, u)[n := Apply(u, RuleFor(ApplyLine(own, done - {n}, u), n))]
  {
    hide Apply;
    assert RuleFor(ApplyLine(own, done - {n}, u), n) == RuleFor(own, n);
  }

  method BuildRules<W(!new, ==)>(store: Store, lines: seq<Line<W>>, sets: DomainSets<W>)
      returns (r: map<WildcardName<W>, nat>)
    requires store.mem.Valid()
    modifies store
    ensures store.mem.Valid() && Holds(store.mem, r, Own(lines, sets))
  {
    hide Apply, ApplyLine;
    r := map[];
    for k := 0 to |lines|
      invariant store.mem.Valid() && Holds(store.mem, r, Own(lines[..k], sets))
    {
      assert lines[..k + 1][..k] == lines[..k];
      r := UpdateAll(store, r, ExpandDomain(lines[k].domain, sets), lines[k].update, Own(lines[..k], sets));
    }
    assert lines[..|lines|] == lines;
  }

  // ---- The tree over shared rules ----

  /** A tree node holding its rule by address. */
  datatype SharedNode = SharedNode(rule: nat, zone: Option<SharedNode>)

  function NodeAt(m: Memory, n: SharedNode): Node {
    Node(m.At(n.rule), if n.zone.None? then None else Some(NodeAt(m, n.zone.value)))
  }

  predicate NodeHeld(m: Memory, n: SharedNode) {
    m.Retained(n.rule) && (n.zone.Some? ==> NodeHeld(m, n.zone.value))
  }

  lemma {:induction false} NodeStays(m: Memory, m': Memory, n: SharedNode)
    requires m.Valid() && m'.Valid() && m.GrewTo(m') && NodeHeld(m, n)
    ensures NodeHeld(m', n) && NodeAt(m', n) == NodeAt(m, n)
  {
    RetainedStays(m, m', n.rule);
    if n.zone.Some? { NodeStays(m, m', n.zone.value); }
  }

  type Memo = map<(nat, nat), nat>

  /** Every memo entry is keyed by held addresses and holds the merge of what is there. */
  ghost predicate MemoValid(m: Memory, memo: Memo) {
    forall k :: k in memo ==> MemoEntry(m, k, memo[k])
  }

  ghost predicate MemoEntry(m: Memory, k: (nat, nat), a: nat) {
    m.Retained(k.0) && m.Retained(k.1) && m.Retained(a) && m.At(a) == Inherit(m.At(k.1), m.At(k.0))
  }

  lemma MemoStays(m: Memory, m': Memory, memo: Memo)
    requires m.Valid() && m'.Valid() && m.GrewTo(m') && MemoValid(m, memo)
    ensures MemoValid(m', memo)
  {
  }

  /** Merges a rule with its zone's, once for each pair of addresses. */
  method MergeOnce(store: Store, memo: Memo, zone: nat, rule: nat) returns (a: nat, m: Memo)
    requires store.mem.Valid() && MemoValid(store.mem, memo) && store.mem.Retained(zone) && store.mem.Retained(rule)
    modifies store
    ensures store.mem.Valid() && old(store.mem).GrewTo(store.mem) && MemoValid(store.mem, m)
    ensures store.mem.Retained(a) && store.mem.At(a) == Inherit(old(store.mem.At(rule)), old(store.mem.At(zone)))
  {
    m := memo;
    if (zone, rule) in memo {
      a := memo[(zone, rule)];
    } else {
      a := store.Intern(Inherit(store.mem.At(rule), store.mem.At(zone)));
      MemoStays(old(store.mem), store.mem, memo);
      RetainedStays(old(store.mem), store.mem, zone);
      RetainedStays(old(store.mem), store.mem, rule);
      m := memo[(zone, rule) := a];
    }
  }

  /** The node of the rule a name inherits from, in the map as it is. */
  method ZoneOf<W(!new, ==), T>(tree: DomainMap<W, T>, p: WildcardName<W>) returns (r: Option<T>)
    requires tree.Valid() && Canonical(p.name)
    ensures r == match ZoneName(tree.isMatch, tree.names, p)
                 case None => None
                 case Some(z) => Lookup(tree.names, tree.values, z)
  {
    hide Canonical, Select, Matches, PlainIndex, SubIndex;
    CanonicalIs(p.name);
    r := None;
    if p.Sub? { r := tree.GetExact(Suffix(p.name)); }
    if r.None? && !p.Default? { r := tree.GetExact(Default(p.name)); }
    if r.None? && p.name != [] {
      r := tree.Find(p.name[1..]);
      ghost var s := Select(tree.isMatch, tree.names, Stripped(p.name[1..]));
      if s.Some? { LookupAt(tree.names, tree.values, s.value); }
    }
  }

  lemma CanonicalIs(n: Labels)
    requires Canonical(n)
    ensures Fits(n) && LowerAll(n) == n
  {
  }

  lemma LookupAt<W, T>(names: seq<WildcardName<W>>, values: seq<T>, i: nat)
    requires |names| == |values| && Distinct(names) && i < |names|
    ensures Lookup(names, values, names[i]) == Some(values[i])
  {
  }

  /** The names of the rules, in whatever order the hash map gives. */
  method Items<W(!new, ==)>(keys: set<WildcardName<W>>) returns (items: seq<WildcardName<W>>)
    ensures Distinct(items) && forall p :: p in items <==> p in keys
  {
    items := [];
    var left := keys;
    while left != {}
      invariant left <= keys && Distinct(items)
      invariant forall p :: p in items <==> p in keys - left
      decreases left
    {
      var p :| p in left;
      assert p !in items;
      items, left := items + [p], left - {p};
    }
  }

  /** The nodes inserted so far are those of the finished tree. */
  ghost predicate Built<W(!new)>(store: Store, tree: DomainMap<W, SharedNode>, order: seq<WildcardName<W>>, k: nat,
                                 own: map<WildcardName<W>, DomainRule>)
    reads store, tree
    requires k <= |order| && forall i :: 0 <= i < |order| ==> order[i] in own
  {
    && tree.Valid() && tree.names == order[..k]
    && forall i :: 0 <= i < k ==>
         NodeHeld(store.mem, tree.values[i])
             && NodeAt(store.mem, tree.values[i]) == TreeNode(tree.isMatch, order, own, order[i])
  }

  /** The zone found in the half-built map is the node the finished tree links the name to. */
  method BuiltZone<W(!new, ==)>(tree: DomainMap<W, SharedNode>, p: WildcardName<W>, ghost store: Store,
                                ghost order: seq<WildcardName<W>>, ghost k: nat,
                                ghost own: map<WildcardName<W>, DomainRule>)
    returns (zone: Option<SharedNode>)
    requires ParentsFirst(order) && k < |order| && order[k] == p && Canonical(p.name)
    requires forall i :: 0 <= i < |order| ==> order[i] in own
    requires Built(store, tree, order, k, own)
    ensures zone.None? <==> ZoneName(tree.isMatch, order, p).None?
    ensures zone.Some? ==>
              && NodeHeld(store.mem, zone.value)
              && NodeAt(store.mem, zone.value) ==
                 TreeNode(tree.isMatch, order, own, ZoneName(tree.isMatch, order, p).value)
  {
    hide Canonical, ZoneName, TreeNode, PlainIndex, SubIndex;
    zone := ZoneOf(tree, p);
    HalfBuiltZone(tree.isMatch, order, k);
    if zone.Some? {
      ghost var i := IndexOf(tree.names, ZoneName(tree.isMatch, order, p).value).value;
      assert order[..k][i] == order[i];
    }
  }

  lemma TreeNodeStep<W(!new)>(isMatch: Matcher<W>, order: seq<WildcardName<W>>, own: map<WildcardName<W>, DomainRule>,
                              p: WildcardName<W>, m: Memory, node: SharedNode)
    requires p in own && forall i :: 0 <= i < |order| ==> order[i] in own
    requires node.zone.None? <==> ZoneName(isMatch, order, p).None?
    requires node.zone.None? ==> m.At(node.rule) == own[p]
    requires node.zone.Some? ==>
               && NodeAt(m, node.zone.value) == TreeNode(isMatch, order, own, ZoneName(isMatch, order, p).value)
               && m.At(node.rule) == Inherit(own[p], NodeAt(m, node.zone.value).rule)
    ensures NodeAt(m, node) == TreeNode(isMatch, order, own, p)
  {
  }

  /** Adds one name: finds its zone in the half-built map, merges and inserts. */
  method AddName<W(!new, ==)>(store: Store, tree: DomainMap<W, SharedNode>, p: WildcardName<W>, rule: nat, memo: Memo,
                              ghost order: seq<WildcardName<W>>, ghost k: nat,
                              ghost own: map<WildcardName<W>, DomainRule>)
    returns (m: Memo)
    requires ParentsFirst(order) && Distinct(order) && k < |order| && order[k] == p && Canonical(p.name)
    requires forall i :: 0 <= i < |order| ==> order[i] in own
    requires store.mem.Valid() && MemoValid(store.mem, memo) && store.mem.Retained(rule) && store.mem.At(rule) == own[p]
    requires Built(store, tree, order, k, own)
    modifies store, tree
    ensures store.mem.Valid() && old(store.mem).GrewTo(store.mem) && MemoValid(store.mem, m)
    ensures Built(store, tree, order, k + 1, own)
  {
    hide Canonical, ZoneName, TreeNode, PlainIndex, SubIndex, Inherit, MemoValid;
    store.Reclaim();
    ghost var values, mem := tree.values, store.mem;
    MemoStays(old(store.mem), mem, memo);
    RetainedStays(old(store.mem), mem, rule);
    forall i | 0 <= i < k
      ensures NodeHeld(mem, values[i]) && NodeAt(mem, values[i]) == TreeNode(tree.isMatch, order, own, order[i])
    {
      NodeStays(old(store.mem), mem, values[i]);
    }
    var zone := BuiltZone(tree, p, store, order, k, own);
    var a := rule;
    m := memo;
    if zone.Some? {
      a, m := MergeOnce(store, memo, zone.value.rule, rule);
      NodeStays(mem, store.mem, zone.value);
    }
    forall i | 0 <= i < k { NodeStays(mem, store.mem, values[i]); }
    TreeNodeStep(tree.isMatch, order, own, p, store.mem, SharedNode(a, zone));
    InsertLast(tree, p, SharedNode(a, zone), order, k);
  }

  /** Inserts the next name of a sorted list of names. */
  method InsertLast<W(!new, ==), T>(tree: DomainMap<W, T>, p: WildcardName<W>, node: T,
                                    ghost order: seq<WildcardName<W>>, ghost k: nat)
    requires tree.Valid() && Distinct(order) && k < |order| && order[k] == p && tree.names == order[..k]
             && Canonical(p.name)
    modifies tree
    ensures tree.Valid() && tree.names == order[..k + 1] && tree.values == old(tree.values) + [node]
  {
    hide PlainIndex, SubIndex;
    CanonicalIs(p.name);
    assert p !in tree.names;
    var _ := tree.Insert(p, node);
    assert order[..k + 1] == order[..k] + [p];
  }

  /** `DomainRuleMap::create`. The finished map holds every written rule, parents first, each with the node the
      finished tree gives it: its own rule merged with its zone's, whatever was shared, memoised or reclaimed. */
  method Create<W(!new, ==)>(store: Store, isMatch: Matcher<W>, lines: seq<Line<W>>, sets: DomainSets<W>)
    returns (tree: DomainMap<W, SharedNode>)
    requires store.mem.Valid()
    requires forall n :: n in Own(lines, sets) ==> Canonical(n.name)
    modifies store
    ensures fresh(tree) && tree.Valid() && tree.isMatch == isMatch && store.mem.Valid()
    ensures ParentsFirst(tree.names) && Distinct(tree.names)
    ensures forall n :: n in tree.names <==> n in Own(lines, sets)
    ensures forall i :: 0 <= i < |tree.names| ==>
              NodeAt(store.mem, tree.values[i]) == TreeNode(isMatch, tree.names, Own(lines, sets), tree.names[i])
  {
    hide Canonical, Select, Matches, PlainIndex, SubIndex, Inherit;
    var rules := BuildRules(store, lines, sets);
    ghost var own := Own(lines, sets);
    var items := Items(rules.Keys);
    var order := SortParentsFirst(items);
    tree := new DomainMap(isMatch);
    var memo: Memo := map[];
    for k := 0 to |order|
      invariant fresh(tree) && tree.isMatch == isMatch
      invariant store.mem.Valid() && MemoValid(store.mem, memo) && Holds(store.mem, rules, own)
      invariant Built(store, tree, order, k, own)
    {
      ghost var mem := store.mem;
      assert order[k] in rules;
      memo := AddName(store, tree, order[k], rules[order[k]], memo, order, k, own);
      HoldsStays(mem, store.mem, rules, own);
    }
    assert order[..|order|] == order;
  }
}
