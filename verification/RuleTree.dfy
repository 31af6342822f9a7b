/** The inheritance tree: which rule a name inherits from, in a finished map and while the map is being built
    (src/dns_rule.rs). */
module RuleTree {
  import opened Common
  import opened WireNames
  import opened DomainIndex
  import opened Messages
  import opened DomainRules
  import opened RuleWalks

  /** Of rules written for the same name, one with a smaller number never inherits from one with a larger. */
  function InheritOrder<W>(p: WildcardName<W>): nat {
    match p
    case Default(_) => 0
    case Suffix(_) => 1
    case Sub(_, _) => 2
    case Full(_) => 3
  }

  /** The key rules are sorted by: the label count, then the inherit order. */
  predicate KeyAtMost<W>(a: WildcardName<W>, b: WildcardName<W>) {
    |a.name| < |b.name| || (|a.name| == |b.name| && InheritOrder(a) <= InheritOrder(b))
  }

  predicate KeyLess<W>(a: WildcardName<W>, b: WildcardName<W>) { !KeyAtMost(b, a) }

  ghost predicate ParentsFirst<W>(names: seq<WildcardName<W>>) {
    forall i, j :: 0 <= i < j < |names| ==> KeyAtMost(names[i], names[j])
  }

  /** The rule for the same name that a `*`, `+` or `-` name inherits from. */
  function SameName<W(==)>(names: seq<WildcardName<W>>, p: WildcardName<W>): Option<WildcardName<W>> {
    match p
    case Default(_) => None
    case Sub(_, n) =>
      if Suffix(n) in names then Some(Suffix(n)) else if Default(n) in names then Some(Default(n)) else None
    case Suffix(n) => if Default(n) in names then Some(Default(n)) else None
    case Full(n) => if Default(n) in names then Some(Default(n)) else None
  }

  /** It is for the same name and matches whatever the name's own rule matches; a `*` rule takes the narrower of two. */
  lemma SameNameMatchesMore<W>(isMatch: Matcher<W>, names: seq<WildcardName<W>>, p: WildcardName<W>, q: Labels)
    ensures var z := SameName(names, p);
            && (z.Some? ==> z.value in names && z.value != p && z.value.name == p.name)
            && (z.Some? && Matches(isMatch, p, q) ==> Matches(isMatch, z.value, q))
            && (p.Sub? && Suffix(p.name) in names ==> z == Some(Suffix(p.name)))
            && (!p.Default? && Default(p.name) in names ==> z.Some?)
  {
    if p.Sub? && q != [] { assert LowerAll(q)[|LowerAll(q)| - |LowerAll(q)[1..]|..] == LowerAll(q)[1..]; }
  }

  /** The rule a name inherits from. Each link goes to a rule with a strictly smaller key. */
  function ZoneName<W(==)>(isMatch: Matcher<W>, names: seq<WildcardName<W>>,
                           p: WildcardName<W>): (z: Option<WildcardName<W>>)
    ensures z.Some? ==> z.value in names && KeyLess(z.value, p)
  {
    OrElse(SameName(names, p), if p.name == [] then None else Found(isMatch, names, p.name[1..]))
  }

  lemma SelectPrefix<W>(isMatch: Matcher<W>, names: seq<WildcardName<W>>, k: nat, q: Labels)
    requires k <= |names|
    requires forall i :: k <= i < |names| ==> !Matches(isMatch, names[i], q)
    ensures Select(isMatch, names[..k], q) == Select(isMatch, names, q)
  {
    hide Matches;
    var r := Select(isMatch, names, q);
    if r.Some? {
      assert names[..k][r.value] == names[r.value];
      assert Selects(isMatch, names[..k], q, r.value);
      SelectUnique(isMatch, names[..k], q, r.value);
    } else {
      assert forall i :: 0 <= i < k ==> names[..k][i] == names[i];
    }
  }

  /** A rule that matches has no more labels than the name it matches. */
  lemma MatchIsShort<W>(isMatch: Matcher<W>, p: WildcardName<W>, q: Labels)
    requires Matches(isMatch, p, q)
    ensures |p.name| <= |q|
  {
  }

  lemma EarlierKey<W>(names: seq<WildcardName<W>>, k: nat, z: WildcardName<W>)
    requires ParentsFirst(names) && k < |names| && KeyLess(z, names[k])
    ensures z in names <==> z in names[..k]
  {
  }

  /** The zone found for a name in the half-built map is the one in the finished map. */
  lemma HalfBuiltZone<W>(isMatch: Matcher<W>, names: seq<WildcardName<W>>, k: nat)
    requires ParentsFirst(names) && k < |names|
    ensures ZoneName(isMatch, names[..k], names[k]) == ZoneName(isMatch, names, names[k])
  {
    var p := names[k];
    if !p.Default? {
      EarlierKey(names, k, Default(p.name));
      if p.Sub? { EarlierKey(names, k, Suffix(p.name)); }
    }
    if p.name != [] {
      var q := Stripped(p.name[1..]);
      forall i | k <= i < |names| ensures !Matches(isMatch, names[i], q) {
        if Matches(isMatch, names[i], q) { MatchIsShort(isMatch, names[i], q); }
      }
      SelectPrefix(isMatch, names, k, q);
    }
  }

  /** The rules a name inherits from, itself first. */
  function Chain<W(==)>(isMatch: Matcher<W>, names: seq<WildcardName<W>>, p: WildcardName<W>): (c: seq<WildcardName<W>>)
    ensures c != [] && c[0] == p && forall i :: 1 <= i < |c| ==> c[i] in names
    decreases |p.name|, InheritOrder(p)
  {
    match ZoneName(isMatch, names, p) case None => [p] case Some(z) => [p] + Chain(isMatch, names, z)
  }

  predicate NoStars(n: Labels) { forall i :: 0 <= i < |n| ==> n[i] != STAR }

  /** A name inherits from every default rule written for it or for a domain above it. */
  lemma {:induction false} ChainHasEveryDefault<W(!new)>(isMatch: Matcher<W>, names: seq<WildcardName<W>>,
                                                         p: WildcardName<W>, m: Labels)
    requires Canonical(p.name) && NoStars(p.name) && forall r :: r in names ==> Canonical(r.name)
    requires Default(m) in names && IsSuffix(m, p.name)
    ensures Default(m) in Chain(isMatch, names, p)
    decreases |p.name|, InheritOrder(p)
  {
    if p != Default(m) {
      ZoneIsBelow(isMatch, names, p, m);
      var z := ZoneName(isMatch, names, p).value;
      hide Canonical;
      ChainHasEveryDefault(isMatch, names, z, m);
    }
  }

  /** The rule a name inherits from is for the name or a domain above it, and not above any default rule that is. */
  lemma ZoneIsBelow<W(!new)>(isMatch: Matcher<W>, names: seq<WildcardName<W>>, p: WildcardName<W>, m: Labels)
    requires Canonical(p.name) && NoStars(p.name)
    requires Default(m) in names && IsSuffix(m, p.name) && p != Default(m)
    ensures var z := ZoneName(isMatch, names, p);
            z.Some? && IsSuffix(m, z.value.name) && IsSuffix(z.value.name, p.name) && NoStars(z.value.name)
  {
    if SameName(names, p).None? {
      assert p.name != m;
      SuffixOfLonger(m, p.name);
      ParentIsBelow(isMatch, names, p.name, m);
      hide Canonical, IsSuffix, LowerAll, Matches, Select, Found;
      SuffixOfLonger(ZoneName(isMatch, names, p).value.name, p.name);
    }
  }

  /** The rule found for the parent of a name is for the parent or above it, and not above any default rule that is. */
  lemma ParentIsBelow<W(!new)>(isMatch: Matcher<W>, names: seq<WildcardName<W>>, n: Labels, m: Labels)
    requires n != [] && Canonical(n) && NoStars(n) && Default(m) in names && IsSuffix(m, n[1..])
    ensures var z := Found(isMatch, names, n[1..]);
            z.Some? && IsSuffix(m, z.value.name) && IsSuffix(z.value.name, n[1..]) && NoStars(z.value.name)
  {
    var q := n[1..];
    LevelName(n, 1);
    assert LowerAll(n)[1..] == q;
    CanonicalIsLower(q);
    assert Stripped(q) == q && NoStars(q);
    assert Matches(isMatch, Default(m), q);
    hide LowerAll, Fits, Canonical, Stripped, IsSuffix, NoStars, Matches;
    var r := Select(isMatch, names, q);
    var i := r.value;
    AtMost(isMatch, names, q, i, Default(m));
    MatchIsSuffix(isMatch, names[i], q);
    MatchIsShort(isMatch, names[i], q);
    SuffixOfSuffix(m, names[i].name, q);
    NoStarsAbove(names[i].name, q);
  }

  lemma SuffixOfSuffix(m: Labels, n: Labels, q: Labels)
    requires IsSuffix(m, q) && IsSuffix(n, q) && |m| <= |n|
    ensures IsSuffix(m, n)
  {
    assert q[|q| - |n|..][|n| - |m|..] == q[|q| - |m|..];
  }

  lemma NoStarsAbove(n: Labels, q: Labels)
    requires IsSuffix(n, q) && NoStars(q)
    ensures NoStars(n)
  {
    assert forall k :: 0 <= k < |n| ==> n[k] == q[|q| - |n| + k];
  }

  lemma CanonicalIsLower(n: Labels)
    requires Canonical(n)
    ensures LowerAll(n) == n && Fits(n)
  {
  }

  lemma MatchIsSuffix<W>(isMatch: Matcher<W>, p: WildcardName<W>, q: Labels)
    requires Matches(isMatch, p, q) && LowerAll(q) == q
    ensures IsSuffix(p.name, q)
  {
  }

  /** The tree node of a name in the finished map. */
  function TreeNode<W(==)>(isMatch: Matcher<W>, names: seq<WildcardName<W>>, own: map<WildcardName<W>, DomainRule>,
                           p: WildcardName<W>): Node
    requires p in own && forall i :: 0 <= i < |names| ==> names[i] in own
    decreases |p.name|, InheritOrder(p)
  {
    match ZoneName(isMatch, names, p)
    case None => Node(own[p], None)
    case Some(z) =>
      var zone := TreeNode(isMatch, names, own, z);
      Node(Inherit(own[p], zone.rule), Some(zone))
  }

  function Written<W(==)>(own: map<WildcardName<W>, DomainRule>, chain: seq<WildcardName<W>>): seq<DomainRule>
    requires forall i :: 0 <= i < |chain| ==> chain[i] in own
  {
    seq(|chain|, i requires 0 <= i < |chain| => own[chain[i]])
  }

  /** The rules up a node's chain are the merged rules of the chain as written. */
  lemma {:induction false} TreeNodeIsMerged<W>(isMatch: Matcher<W>, names: seq<WildcardName<W>>,
                                               own: map<WildcardName<W>, DomainRule>, p: WildcardName<W>)
    requires p in own && forall i :: 0 <= i < |names| ==> names[i] in own
    ensures Rules(Some(TreeNode(isMatch, names, own, p))) == MergedChain(Written(own, Chain(isMatch, names, p)))
    decreases |p.name|, InheritOrder(p)
  {
    hide ZoneName, Inherit;
    var chain := Chain(isMatch, names, p);
    var written := Written(own, chain);
    var zone := ZoneName(isMatch, names, p);
    if zone.Some? {
      TreeNodeIsMerged(isMatch, names, own, zone.value);
      assert written[1..] == Written(own, Chain(isMatch, names, zone.value));
      assert MergedChain(written[1..])[0] == Merged(written[1..]);
      assert Rules(Some(TreeNode(isMatch, names, own, zone.value)))[0] ==
             TreeNode(isMatch, names, own, zone.value).rule;
    } else {
      assert written[1..] == [];
    }
  }

  /** In the finished tree, what a name's node answers is what the rules written along its chain say: each inherited
      option, the nameserver group, the address outcome, and the recheck decision when it is undisturbed. */
  lemma TreeAnswersAsWritten<W>(isMatch: Matcher<W>, names: seq<WildcardName<W>>,
                                own: map<WildcardName<W>, DomainRule>, p: WildcardName<W>,
                                f: Field, qtype: RecordType, noRuleSoa: bool, group: string)
    requires p in own && forall i :: 0 <= i < |names| ==> names[i] in own
    ensures var node := Some(TreeNode(isMatch, names, own, p));
            var written := Written(own, Chain(isMatch, names, p));
            && HeadGet(f, node) == Nearest(f, written)
            && GroupOnChain(Rules(node)) == GroupOnChain(written)
            && AddressOnChain(Rules(node), qtype, noRuleSoa) == AddressOnChain(written, qtype, noRuleSoa)
            && (RecheckUndisturbed(written) ==> RecheckOnChain(Rules(node), group) == RecheckOnChain(written, group))
  {
    var node, written := TreeNode(isMatch, names, own, p), Written(own, Chain(isMatch, names, p));
    hide *;
    TreeNodeIsMerged(isMatch, names, own, p);
    GettersAreNearest(f, node, written);
    GroupOnMergedChain(written);
    AddressOnMergedChain(written, qtype, noRuleSoa);
    RecheckAgreesIff(written);
  }

  // ---- Independence of the order rules arrive in ----

  /** The same rules in another order that is also sorted. */
  ghost predicate Reorders<W(!new)>(b: seq<WildcardName<W>>, a: seq<WildcardName<W>>) {
    ParentsFirst(b) && Distinct(b) && forall p :: p in a <==> p in b
  }

  /** Two `*` rules of one name that match the same label, with no rule for the name itself before them. */
  ghost predicate Ambiguous<W(!new)>(isMatch: Matcher<W>, names: seq<WildcardName<W>>, q: Labels) {
    && q != []
    && Full(LowerAll(q)) !in names && Default(LowerAll(q)) !in names
    && exists w, w' :: w != w' && MatchingSub(isMatch, names, q, w) && MatchingSub(isMatch, names, q, w')
  }

  ghost predicate MatchingSub<W>(isMatch: Matcher<W>, names: seq<WildcardName<W>>, q: Labels, w: W) {
    q != [] && Sub(w, LowerAll(q)[1..]) in names && isMatch(w, q[0])
  }

  function SelectedName<W>(isMatch: Matcher<W>, names: seq<WildcardName<W>>, q: Labels): Option<WildcardName<W>> {
    match Select(isMatch, names, q) case None => None case Some(i) => Some(names[i])
  }

  /** Rules of one rank but for insertion are the same rule, unless they are `*` rules. */
  lemma SameRank<W>(isMatch: Matcher<W>, p: WildcardName<W>, p': WildcardName<W>, q: Labels)
    requires Matches(isMatch, p, q) && Matches(isMatch, p', q) && |p.name| == |p'.name| && Order(p) == Order(p')
    ensures p.name == p'.name && (p.Sub? <==> p'.Sub?) && (!p.Sub? ==> p == p')
  {
  }

  /** A `*` rule is selected only when the name itself has no rule. */
  lemma SelectedSub<W>(isMatch: Matcher<W>, names: seq<WildcardName<W>>, q: Labels, i: nat)
    requires Selects(isMatch, names, q, i) && names[i].Sub?
    ensures Full(LowerAll(q)) !in names && Default(LowerAll(q)) !in names
            && MatchingSub(isMatch, names, q, names[i].wildcard)
  {
  }

  lemma NothingSelected<W(!new)>(isMatch: Matcher<W>, a: seq<WildcardName<W>>, b: seq<WildcardName<W>>, q: Labels)
    requires forall p :: p in b ==> p in a
    requires Select(isMatch, a, q) == None
    ensures Select(isMatch, b, q) == None
  {
    hide Matches;
    forall j | 0 <= j < |b| ensures !Matches(isMatch, b[j], q) {
      assert b[j] in a;
    }
  }

  /** Two orders that select different rules show an ambiguity. */
  lemma DisagreementIsAmbiguous<W(!new)>(isMatch: Matcher<W>, a: seq<WildcardName<W>>, b: seq<WildcardName<W>>,
                                         q: Labels, i: nat, j: nat)
    requires forall p :: p in a <==> p in b
    requires Selects(isMatch, a, q, i) && Selects(isMatch, b, q, j) && a[i] != b[j]
    ensures Ambiguous(isMatch, a, q)
  {
    hide Matches;
    var p, p' := a[i], b[j];
    assert p in b && p' in a;
    var i' :| 0 <= i' < |a| && a[i'] == p';
    var j' :| 0 <= j' < |b| && b[j'] == p;
    assert RankAtMost(a, q, i, i') && RankAtMost(b, q, j, j');
    SameRank(isMatch, p, p', q);
    SelectedSub(isMatch, a, q, i);
    SelectedSub(isMatch, b, q, j);
    assert MatchingSub(isMatch, a, q, p'.wildcard);
  }

  /** Without ambiguity every order selects the same rule. */
  lemma UnambiguousAgrees<W(!new)>(isMatch: Matcher<W>, a: seq<WildcardName<W>>, b: seq<WildcardName<W>>, q: Labels)
    requires forall p :: p in a <==> p in b
    requires !Ambiguous(isMatch, a, q)
    ensures SelectedName(isMatch, a, q) == SelectedName(isMatch, b, q)
  {
    hide Matches, Ambiguous;
    var r, r' := Select(isMatch, a, q), Select(isMatch, b, q);
    if r.None? {
      NothingSelected(isMatch, a, b, q);
    } else if r'.None? {
      NothingSelected(isMatch, b, a, q);
    } else if a[r.value] != b[r'.value] {
      DisagreementIsAmbiguous(isMatch, a, b, q, r.value, r'.value);
    }
  }

  /** With it, exchanging the two rules is a sorted order that selects another rule. */
  lemma AmbiguousDisagrees<W(!new)>(isMatch: Matcher<W>, a: seq<WildcardName<W>>, q: Labels)
      returns (b: seq<WildcardName<W>>)
    requires ParentsFirst(a) && Distinct(a) && Ambiguous(isMatch, a, q)
    ensures Reorders(b, a) && SelectedName(isMatch, b, q) != SelectedName(isMatch, a, q)
  {
    var n := LowerAll(q)[1..];
    var w, w' :| w != w' && MatchingSub(isMatch, a, q, w) && MatchingSub(isMatch, a, q, w');
    assert Matches(isMatch, Sub(w, n), q);
    var i := Select(isMatch, a, q).value;
    FirstIsSub(isMatch, a, q, w, i);
    var other := if a[i].wildcard == w then w' else w;
    var j :| 0 <= j < |a| && a[j] == Sub(other, n);
    assert Matches(isMatch, a[j], q);
    assert RankAtMost(a, q, i, j) && i < j;
    b := a[i := a[j]][j := a[i]];
    SwapReorders(a, i, j);
    assert Selects(isMatch, b, q, i) by {
      hide Matches;
      forall k | 0 <= k < |b| && Matches(isMatch, b[k], q) ensures RankAtMost(b, q, i, k) {
        if k != i && k != j { assert b[k] == a[k] && RankAtMost(a, q, i, k); }
      }
    }
    SelectUnique(isMatch, b, q, i);
  }

  lemma FirstIsSub<W(!new)>(isMatch: Matcher<W>, a: seq<WildcardName<W>>, q: Labels, w: W, i: nat)
    requires MatchingSub(isMatch, a, q, w) && Selects(isMatch, a, q, i)
    requires Full(LowerAll(q)) !in a && Default(LowerAll(q)) !in a
    ensures a[i].Sub? && a[i].name == LowerAll(q)[1..]
  {
  }

  lemma SwapReorders<W(!new)>(a: seq<WildcardName<W>>, i: nat, j: nat)
    requires ParentsFirst(a) && Distinct(a) && i < j < |a|
    requires |a[i].name| == |a[j].name| && InheritOrder(a[i]) == InheritOrder(a[j])
    ensures Reorders(a[i := a[j]][j := a[i]], a)
  {
    var b := a[i := a[j]][j := a[i]];
    forall p | p in a ensures p in b {
      var k :| 0 <= k < |a| && a[k] == p;
      assert p == b[if k == i then j else if k == j then i else k];
    }
  }

  /** A name's rule is the same in every sorted order exactly when no two `*` rules compete for it. */
  lemma OrderIndependentIff<W(!new)>(isMatch: Matcher<W>, a: seq<WildcardName<W>>, q: Labels)
    requires ParentsFirst(a) && Distinct(a)
    ensures (forall b :: Reorders(b, a) ==> SelectedName(isMatch, b, q) == SelectedName(isMatch, a, q))
            <==> !Ambiguous(isMatch, a, q)
  {
    if Ambiguous(isMatch, a, q) {
      var b := AmbiguousDisagrees(isMatch, a, q);
    } else {
      forall b | Reorders(b, a) ensures SelectedName(isMatch, b, q) == SelectedName(isMatch, a, q) {
        UnambiguousAgrees(isMatch, a, b, q);
      }
    }
  }

  /** Two patterns for one name, both of which match a label: either is selected, whichever comes first. */
  lemma TwoPatternsDisagree<W(!new)>(isMatch: Matcher<W>, w: W, w': W, name: Labels, l: Label)
    requires w != w' && isMatch(w, l) && isMatch(w', l) && LowerAll(name) == name
    ensures var a, b, q := [Sub(w, name), Sub(w', name)], [Sub(w', name), Sub(w, name)], [l] + name;
            && ParentsFirst(a) && Reorders(b, a)
            && SelectedName(isMatch, a, q) == Some(Sub(w, name)) && SelectedName(isMatch, b, q) == Some(Sub(w', name))
  {
    var a, b, q := [Sub(w, name), Sub(w', name)], [Sub(w', name), Sub(w, name)], [l] + name;
    assert LowerAll(q)[1..] == name;
    assert Selects(isMatch, a, q, 0) && Selects(isMatch, b, q, 0);
    SelectUnique(isMatch, a, q, 0);
    SelectUnique(isMatch, b, q, 0);
  }

  /** No two `*` rules compete for the parent a rule inherits from. */
  ghost predicate ZoneUnambiguous<W(!new)>(isMatch: Matcher<W>, names: seq<WildcardName<W>>, p: WildcardName<W>) {
    SameName(names, p).Some? || p.name == [] || !Ambiguous(isMatch, names, Stripped(p.name[1..]))
  }

  /** Then the whole tree is the same whatever order the hash map gave. */
  lemma {:induction false} TreeIgnoresOrder<W(!new)>(isMatch: Matcher<W>, a: seq<WildcardName<W>>,
                                                     b: seq<WildcardName<W>>,
                                                     own: map<WildcardName<W>, DomainRule>, p: WildcardName<W>)
    requires Reorders(b, a) && p in a && forall i :: 0 <= i < |a| ==> a[i] in own
    requires forall p :: p in a ==> ZoneUnambiguous(isMatch, a, p)
    ensures forall i :: 0 <= i < |b| ==> b[i] in own
    ensures TreeNode(isMatch, a, own, p) == TreeNode(isMatch, b, own, p)
    decreases |p.name|, InheritOrder(p)
  {
    hide Matches, Select, Inherit, Ambiguous;
    assert forall i :: 0 <= i < |b| ==> b[i] in a;
    if SameName(a, p).None? && p.name != [] {
      assert ZoneUnambiguous(isMatch, a, p);
      UnambiguousAgrees(isMatch, a, b, Stripped(p.name[1..]));
    }
    var z := ZoneName(isMatch, a, p);
    assert z == ZoneName(isMatch, b, p);
    if z.Some? { TreeIgnoresOrder(isMatch, a, b, own, z.value); }
  }

  // ---- Sorting ----

  function InsertAt<A>(s: seq<A>, at: nat, x: A): seq<A>
    requires at <= |s|
  {
    s[..at] + [x] + s[at..]
  }

  lemma InsertAtKeepsOrder<W>(r: seq<WildcardName<W>>, at: nat, p: WildcardName<W>)
    requires ParentsFirst(r) && at <= |r| && (at > 0 ==> KeyAtMost(r[at - 1], p))
    requires forall j :: at <= j < |r| ==> KeyLess(p, r[j])
    ensures ParentsFirst(InsertAt(r, at, p))
  {
    var s := InsertAt(r, at, p);
    forall i, j | 0 <= i < j < |s| ensures KeyAtMost(s[i], s[j]) {
      var i', j' := if i < at then i else i - 1, if j < at then j else j - 1;
      if i != at && j != at {
        assert KeyAtMost(r[i'], r[j']);
      } else if j == at && i < at - 1 {
        assert KeyAtMost(r[i], r[at - 1]);
      }
    }
  }

  lemma InsertAtAdds<W>(r: seq<WildcardName<W>>, at: nat, p: WildcardName<W>)
    requires at <= |r|
    ensures multiset(InsertAt(r, at, p)) == multiset(r) + multiset{p}
    ensures forall x :: x in InsertAt(r, at, p) <==> x in r || x == p
  {
    assert r == r[..at] + r[at..];
    assert forall x :: x in r <==> x in r[..at] || x in r[at..];
  }

  lemma InsertAtKeepsDistinct<W>(r: seq<WildcardName<W>>, at: nat, p: WildcardName<W>)
    requires at <= |r| && Distinct(r) && p !in r
    ensures Distinct(InsertAt(r, at, p))
  {
    var s := InsertAt(r, at, p);
    forall i, j | 0 <= i < j < |s| ensures s[i] != s[j] {
      var i', j' := if i < at then i else i - 1, if j < at then j else j - 1;
      assert i != at ==> s[i] == r[i'];
      assert j != at ==> s[j] == r[j'];
    }
  }

  /** Sorts rules parents-first. */
  method SortParentsFirst<W(!new)>(items: seq<WildcardName<W>>) returns (r: seq<WildcardName<W>>)
    requires Distinct(items)
    ensures multiset(r) == multiset(items) && Reorders(r, items)
  {
    hide KeyAtMost, KeyLess;
    r := [];
    for k := 0 to |items|
      invariant ParentsFirst(r) && Distinct(r) && multiset(r) == multiset(items[..k])
      invariant forall p :: p in items[..k] <==> p in r
    {
      var p := items[k];
      var at := PlaceFor(r, p);
      assert items[..k + 1] == items[..k] + [p];
      assert p !in items[..k];
      InsertAtKeepsOrder(r, at, p);
      InsertAtAdds(r, at, p);
      InsertAtKeepsDistinct(r, at, p);
      r := InsertAt(r, at, p);
    }
    assert items[..|items|] == items;
  }

  method PlaceFor<W>(r: seq<WildcardName<W>>, p: WildcardName<W>) returns (at: nat)
    ensures at <= |r| && (at > 0 ==> KeyAtMost(r[at - 1], p)) && forall j :: at <= j < |r| ==> KeyLess(p, r[j])
  {
    at := |r|;
    while at > 0 && !KeyAtMost(r[at - 1], p)
      invariant at <= |r| && forall j :: at <= j < |r| ==> KeyLess(p, r[j])
    {
      at := at - 1;
    }
  }
}
