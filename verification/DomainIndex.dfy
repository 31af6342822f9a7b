/** The domain rule index (src/collections.rs) and what it means for a name to match a rule. */
module DomainIndex {
  import opened Common
  import opened WireNames

  datatype WildcardName<W> =
    | Default(name: Labels)
    | Suffix(name: Labels)
    | Sub(wildcard: W, name: Labels)
    | Full(name: Labels)

  /** `Wildcard::is_match`, left uninterpreted. */
  type Matcher<!W> = (W, Label) -> bool

  datatype Kind = FullKind | DefaultKind | SuffixKind | SubKind

  /** The 64-bit hash of a kind and a wire form, taken to be free of collisions. */
  datatype Key = Key(kind: Kind, wire: seq<byte>)

  function KindOf<W>(p: WildcardName<W>): Kind {
    match p
    case Default(_) => DefaultKind
    case Suffix(_) => SuffixKind
    case Sub(_, _) => SubKind
    case Full(_) => FullKind
  }

  /** A name as the rules hold it: within the limits and lowercase. */
  predicate Canonical(n: Labels) { Fits(n) && LowerAll(n) == n }

  function Normal<W>(p: WildcardName<W>): WildcardName<W> { p.(name := LowerAll(p.name)) }

  predicate IsSuffix(n: Labels, q: Labels) { |n| <= |q| && q[|q| - |n|..] == n }

  /** What the index matches. `q` is a query name in any case. */
  predicate Matches<W>(isMatch: Matcher<W>, p: WildcardName<W>, q: Labels) {
    var lq := LowerAll(q);
    match p
    case Default(n) => IsSuffix(n, lq)
    case Suffix(n) => IsSuffix(n, lq) && n != lq
    case Sub(w, n) => q != [] && n == lq[1..] && isMatch(w, q[0])
    case Full(n) => n == lq
  }

  /** `WildcardName::is_match`: there a `*` name below the root also matches the root itself. */
  predicate DeclaredMatches<W>(isMatch: Matcher<W>, p: WildcardName<W>, q: Labels) {
    var lq := LowerAll(q);
    match p
    case Default(n) => IsSuffix(n, lq)
    case Suffix(n) => n != lq && IsSuffix(n, lq)
    case Sub(w, n) =>
      (if q == [] then [] else lq[1..]) == n && (q == [] || isMatch(w, q[0]))
    case Full(n) => n == lq
  }

  /** Among rules of one level: the full name, then `*` names, the suffix and the default name. */
  function Order<W>(p: WildcardName<W>): nat {
    match p
    case Full(_) => 0
    case Sub(_, _) => 1
    case Suffix(_) => 2
    case Default(_) => 3
  }

  /** Rank of rules for one query: the nearest level first, then the order of kinds, then insertion. */
  predicate RankAtMost<W>(names: seq<WildcardName<W>>, q: Labels, i: nat, j: nat)
    requires i < |names| && j < |names|
  {
    var a, b := |q| - |names[i].name|, |q| - |names[j].name|;
    a < b || (a == b && (Order(names[i]) < Order(names[j]) || (Order(names[i]) == Order(names[j]) && i <= j)))
  }

  ghost predicate Selects<W>(isMatch: Matcher<W>, names: seq<WildcardName<W>>, q: Labels, i: nat) {
    && i < |names|
    && Matches(isMatch, names[i], q)
    && forall j :: 0 <= j < |names| && Matches(isMatch, names[j], q) ==> RankAtMost(names, q, i, j)
  }

  /** The matching rule of least rank, if any rule matches. */
  function Select<W>(isMatch: Matcher<W>, names: seq<WildcardName<W>>, q: Labels): (r: Option<nat>)
    ensures r.None? <==> forall i :: 0 <= i < |names| ==> !Matches(isMatch, names[i], q)
    ensures r.Some? ==> Selects(isMatch, names, q, r.value)
  {
    hide Matches;
    if names == [] then None
    else
      var last := |names| - 1;
      var rest := Select(isMatch, names[..last], q);
      if !Matches(isMatch, names[last], q) then rest
      else if rest.Some? && RankAtMost(names, q, rest.value, last) then rest
      else Some(last)
  }

  lemma SelectUnique<W>(isMatch: Matcher<W>, names: seq<WildcardName<W>>, q: Labels, i: nat)
    requires Selects(isMatch, names, q, i)
    ensures Select(isMatch, names, q) == Some(i)
  {
  }

  /** The name that is looked up: a leading `*` label is taken off. */
  function Stripped(name: Labels): Labels {
    if IsStarName(name) then name[1..] else name
  }

  /** The rule `find` returns for a name. */
  function Found<W>(isMatch: Matcher<W>, names: seq<WildcardName<W>>, name: Labels): (r: Option<WildcardName<W>>)
    ensures r.Some? ==> r.value in names && |r.value.name| <= |name|
  {
    if !Fits(Stripped(name)) then None
    else match Select(isMatch, names, Stripped(name)) case None => None case Some(i) => Some(names[i])
  }

  // ---- What the index finds, and what rules declare ----

  const STAR: Label := [42]

  predicate IsStarName(name: Labels) { name != [] && name[0] == STAR }

  /** A rule that declares a match the index does not make: a `*` rule below the root for the root, and for a `*` name
      whatever is written for that very name, the suffix rule of its parent and `*` rules beside it. */
  predicate DeclaredOnly<W>(isMatch: Matcher<W>, p: WildcardName<W>, name: Labels) {
    var ln := LowerAll(name);
    if name == [] then p.Sub? && p.name == []
    else IsStarName(name) &&
         match p
         case Default(n) => n == ln
         case Full(n) => n == ln
         case Suffix(n) => n == ln[1..]
         case Sub(w, n) => n == ln[1..] && isMatch(w, name[0])
  }

  /** A rule the index matches although it declares no match: for a `*` name, the full rule of its parent and the `*`
      rules that match that parent. */
  predicate IndexOnly<W>(isMatch: Matcher<W>, p: WildcardName<W>, name: Labels) {
    var ln := LowerAll(name);
    IsStarName(name) &&
    match p
    case Full(n) => n == ln[1..]
    case Sub(w, n) => |name| > 1 && n == ln[2..] && isMatch(w, name[1])
    case _ => false
  }

  /** A rule that covers the root, or the zone a `*` name stands for, in either sense. */
  predicate Covers<W>(p: WildcardName<W>, name: Labels) {
    var lq := LowerAll(Stripped(name));
    match p
    case Default(n) => IsSuffix(n, lq)
    case Suffix(n) => IsSuffix(n, lq) && n != lq
    case Full(n) => name == [] && n == []
    case Sub(_, _) => false
  }

  /** Rule by rule, the index and the declared matching differ on these two families and on nothing else. */
  lemma DeclaredMatchesAgree<W>(isMatch: Matcher<W>, p: WildcardName<W>, name: Labels)
    ensures DeclaredMatches(isMatch, p, name) && !Matches(isMatch, p, Stripped(name)) <==>
            DeclaredOnly(isMatch, p, name)
    ensures Matches(isMatch, p, Stripped(name)) && !DeclaredMatches(isMatch, p, name) <==> IndexOnly(isMatch, p, name)
    ensures name == [] || IsStarName(name) ==>
              (Matches(isMatch, p, Stripped(name)) && DeclaredMatches(isMatch, p, name) <==> Covers(p, name))
  {
    if IsStarName(name) {
      if p.Sub? { StarNameSub(isMatch, p, name); } else { StarNamePlain(isMatch, p, name); }
    } else if name == [] {
      assert LowerAll(name) == [];
    }
  }

  lemma StarNameSub<W>(isMatch: Matcher<W>, p: WildcardName<W>, name: Labels)
    requires IsStarName(name) && p.Sub?
    ensures DeclaredMatches(isMatch, p, name) <==> DeclaredOnly(isMatch, p, name)
    ensures Matches(isMatch, p, Stripped(name)) <==> IndexOnly(isMatch, p, name)
    ensures !(DeclaredOnly(isMatch, p, name) && IndexOnly(isMatch, p, name))
  {
    LowerStarName(name);
    hide LowerAll;
  }

  lemma StarNamePlain<W>(isMatch: Matcher<W>, p: WildcardName<W>, name: Labels)
    requires IsStarName(name) && !p.Sub?
    ensures DeclaredMatches(isMatch, p, name) <==> Covers(p, name) || DeclaredOnly(isMatch, p, name)
    ensures Matches(isMatch, p, Stripped(name)) <==> Covers(p, name) || IndexOnly(isMatch, p, name)
    ensures !(Covers(p, name) && DeclaredOnly(isMatch, p, name)) && !(Covers(p, name) && IndexOnly(isMatch, p, name))
    ensures !(DeclaredOnly(isMatch, p, name) && IndexOnly(isMatch, p, name))
  {
    hide LowerAll, IsSuffix;
    LowerStarName(name);
    SuffixOfLonger(p.name, LowerAll(name));
  }

  lemma LowerStarName(name: Labels)
    requires IsStarName(name)
    ensures |LowerAll(name)| == |name| && LowerAll(Stripped(name)) == LowerAll(name)[1..]
    ensures |name| > 1 ==> LowerAll(Stripped(name))[1..] == LowerAll(name)[2..]
  {
  }

  lemma SuffixOfLonger(n: Labels, q: Labels)
    requires q != []
    ensures IsSuffix(n, q) <==> n == q || IsSuffix(n, q[1..])
    ensures !(n == q && IsSuffix(n, q[1..])) && IsSuffix(q[1..], q[1..])
  {
    if |n| < |q| { assert q[1..][|q| - 1 - |n|..] == q[|q| - |n|..]; }
  }

  ghost predicate Declared<W>(isMatch: Matcher<W>, names: seq<WildcardName<W>>, name: Labels) {
    exists p :: p in names && DeclaredMatches(isMatch, p, name)
  }

  /** When the rules for a name are such that both senses agree on whether it has one: always for names other than the
      root and `*` names; for those, when some rule covers them anyway or both families are there or both are not. */
  ghost predicate SensesAgree<W>(isMatch: Matcher<W>, names: seq<WildcardName<W>>, name: Labels) {
    || (name != [] && !IsStarName(name))
    || (exists p :: p in names && Covers(p, name))
    || ((exists p :: p in names && DeclaredOnly(isMatch, p, name)) <==>
        (exists p :: p in names && IndexOnly(isMatch, p, name)))
  }

  lemma FoundIffMatches<W>(isMatch: Matcher<W>, names: seq<WildcardName<W>>, name: Labels)
    requires Fits(Stripped(name))
    ensures Found(isMatch, names, name).Some? <==> exists p :: p in names && Matches(isMatch, p, Stripped(name))
  {
    hide Matches;
    var r := Select(isMatch, names, Stripped(name));
    if r.Some? { assert names[r.value] in names; }
  }

  /** The lookup finds a rule exactly when some rule declares a match, if and only if the rules are of that kind. */
  lemma FoundIffDeclared<W>(isMatch: Matcher<W>, names: seq<WildcardName<W>>, name: Labels)
    requires Fits(Stripped(name))
    ensures (Found(isMatch, names, name).Some? <==> Declared(isMatch, names, name)) <==>
            SensesAgree(isMatch, names, name)
  {
    hide Matches, DeclaredMatches, DeclaredOnly, IndexOnly, Covers, Found;
    FoundIffMatches(isMatch, names, name);
    forall p | p in names
      ensures DeclaredMatches(isMatch, p, name) && !Matches(isMatch, p, Stripped(name)) <==>
              DeclaredOnly(isMatch, p, name)
      ensures Matches(isMatch, p, Stripped(name)) && !DeclaredMatches(isMatch, p, name) <==> IndexOnly(isMatch, p, name)
      ensures name == [] || IsStarName(name) ==>
                (Matches(isMatch, p, Stripped(name)) && DeclaredMatches(isMatch, p, name) <==> Covers(p, name))
      ensures name != [] && !IsStarName(name) ==> !DeclaredOnly(isMatch, p, name) && !IndexOnly(isMatch, p, name)
    {
      DeclaredMatchesAgree(isMatch, p, name);
      if name != [] && !IsStarName(name) { NoFamilyElsewhere(isMatch, p, name); }
    }
  }

  lemma NoFamilyElsewhere<W>(isMatch: Matcher<W>, p: WildcardName<W>, name: Labels)
    requires name != [] && !IsStarName(name)
    ensures !DeclaredOnly(isMatch, p, name) && !IndexOnly(isMatch, p, name)
  {
  }

  /** The root: a `*` rule below it declares a match that is not found. */
  lemma RootSubIsNotFound<W>(isMatch: Matcher<W>, w: W)
    ensures Declared(isMatch, [Sub(w, [])], []) && Found(isMatch, [Sub(w, [])], []) == None
  {
    assert DeclaredMatches(isMatch, Sub(w, []), []);
  }

  /** The name `*.a`: the suffix rule of `a` declares a match that is not found, and the full rule of `a` is found
      without declaring one. */
  lemma StarNameDiffers<W>(isMatch: Matcher<W>, name: Labels)
    requires name == [STAR, [97]]
    ensures var suffix: WildcardName<W> := Suffix([[97]]);
            Declared(isMatch, [suffix], name) && Found(isMatch, [suffix], name) == None
    ensures var full: WildcardName<W> := Full([[97]]);
            !Declared(isMatch, [full], name) && Found(isMatch, [full], name) == Some(full)
  {
    var suffix: WildcardName<W>, full: WildcardName<W> := Suffix([[97]]), Full([[97]]);
    assert Lower(STAR) == STAR && Lower([97]) == [97];
    assert LowerAll(name) == name && LowerAll(Stripped(name)) == [[97]];
    assert DeclaredMatches(isMatch, suffix, name);
    assert Matches(isMatch, full, Stripped(name));
    assert Fits([[97]]) by { WireLengthOne([97]); }
  }

  /** The matcher does not look at letter case. */
  ghost predicate IgnoresCase<W(!new)>(isMatch: Matcher<W>) {
    forall w, l, m :: SameLabel(l, m) ==> isMatch(w, l) == isMatch(w, m)
  }

  /** Names that differ only in letter case select the same rule when letter case does not matter to the wildcards. */
  lemma SelectIgnoresCase<W(!new)>(isMatch: Matcher<W>, names: seq<WildcardName<W>>, q: Labels, q': Labels)
    requires IgnoresCase(isMatch) && SameButCase(q, q')
    ensures Select(isMatch, names, q) == Select(isMatch, names, q')
  {
    LowerAllIff(q, q');
    hide LowerAll, SameLabel;
    forall i | 0 <= i < |names|
      ensures Matches(isMatch, names[i], q) == Matches(isMatch, names[i], q')
    {
      if q != [] { assert SameLabel(q[0], q'[0]); }
    }
    hide Matches;
    var r := Select(isMatch, names, q);
    if r.Some? {
      assert Selects(isMatch, names, q', r.value);
      SelectUnique(isMatch, names, q', r.value);
    }
  }

  /** And so does the lookup, whatever the case of the query and of the name a rule was written for. */
  lemma FoundIgnoresCase<W(!new)>(isMatch: Matcher<W>, names: seq<WildcardName<W>>, name: Labels, name': Labels)
    requires IgnoresCase(isMatch) && SameButCase(name, name')
    ensures Found(isMatch, names, name) == Found(isMatch, names, name')
  {
    if name != [] {
      assert SameLabel(name[0], name'[0]);
      assert name[0] == STAR <==> name'[0] == STAR;
    }
    var q, q' := Stripped(name), Stripped(name');
    LowerAllIff(q, q');
    LowerKeepsLength(q);
    LowerKeepsLength(q');
    hide LowerAll, Matches;
    SelectIgnoresCase(isMatch, names, q, q');
  }

  /** In particular a name finds its own rule however it is spelled. */
  lemma FoundByAnySpelling<W>(isMatch: Matcher<W>, n: Labels, name: Labels)
    requires SameButCase(n, name) && Fits(name) && !IsStarName(name)
    ensures Found(isMatch, [Full(LowerAll(n))], name) == Some(Full(LowerAll(n)))
    ensures Found(isMatch, [Default(LowerAll(n))], name) == Some(Default(LowerAll(n)))
  {
    LowerAllIff(n, name);
    hide LowerAll;
    var full: WildcardName<W>, all: WildcardName<W> := Full(LowerAll(n)), Default(LowerAll(n));
    assert Matches(isMatch, full, name) && Matches(isMatch, all, name);
  }

  /** What `find` is documented to prefer, said by the rules that are there: the full name, the name with what is below
      it, a pattern for the label, and then at the nearest level what is below a name before the name itself. */
  ghost predicate Preferred<W>(isMatch: Matcher<W>, names: seq<WildcardName<W>>, q: Labels, p: WildcardName<W>) {
    var lq := LowerAll(q);
    if Full(lq) in names then p == Full(lq)
    else if Default(lq) in names then p == Default(lq)
    else if exists i: nat :: FirstPattern(isMatch, names, q, i) then
      exists i: nat :: FirstPattern(isMatch, names, q, i) && p == names[i]
    else exists level :: 0 < level <= |q| && NearestZone(names, q, level) &&
           p == if Suffix(lq[level..]) in names then Suffix(lq[level..]) else Default(lq[level..])
  }

  /** The first inserted of the patterns that match the first label and are written for the rest of the name. */
  ghost predicate FirstPattern<W>(isMatch: Matcher<W>, names: seq<WildcardName<W>>, q: Labels, i: nat) {
    && i < |names| && IsPattern(isMatch, names[i], q)
    && forall j :: 0 <= j < i ==> !IsPattern(isMatch, names[j], q)
  }

  predicate IsPattern<W>(isMatch: Matcher<W>, p: WildcardName<W>, q: Labels) {
    p.Sub? && q != [] && p.name == LowerAll(q)[1..] && isMatch(p.wildcard, q[0])
  }

  predicate IsZone<W(==)>(names: seq<WildcardName<W>>, q: Labels, level: nat) {
    level <= |q| == |LowerAll(q)| && (Suffix(LowerAll(q)[level..]) in names || Default(LowerAll(q)[level..]) in names)
  }

  /** The nearest parent with a rule for what is below it. */
  ghost predicate NearestZone<W>(names: seq<WildcardName<W>>, q: Labels, level: nat) {
    IsZone(names, q, level) && forall l :: 0 < l < level ==> !IsZone(names, q, l)
  }

  /** A selected rule is the preferred one. */
  lemma SelectIsPreferred<W>(isMatch: Matcher<W>, names: seq<WildcardName<W>>, q: Labels, i: nat)
    requires Selects(isMatch, names, q, i)
    ensures Preferred(isMatch, names, q, names[i])
  {
    LowerLengths(q);
    var lq, p := LowerAll(q), names[i];
    if Full(lq) in names {
      AtMost(isMatch, names, q, i, Full(lq));
    } else if Default(lq) in names {
      AtMost(isMatch, names, q, i, Default(lq));
    } else if p.Sub? {
      forall j | 0 <= j < i ensures !IsPattern(isMatch, names[j], q) {
        assert Matches(isMatch, names[j], q) ==> RankAtMost(names, q, i, j);
      }
      assert FirstPattern(isMatch, names, q, i);
    } else {
      PreferredZone(isMatch, names, q, i);
    }
  }

  /** And when none is selected, none is preferred. */
  lemma NoneIsPreferred<W>(isMatch: Matcher<W>, names: seq<WildcardName<W>>, q: Labels, p: WildcardName<W>)
    requires Select(isMatch, names, q) == None && p in names
    ensures !Preferred(isMatch, names, q, p)
  {
    LowerLengths(q);
    forall i | 0 <= i < |names| ensures !IsPattern(isMatch, names[i], q) {
      assert !Matches(isMatch, names[i], q);
    }
    assert !Matches(isMatch, p, q);
  }

  lemma LowerLengths(q: Labels)
    ensures |LowerAll(q)| == |q|
  {
  }

  /** The selected rule ranks at most like any other that matches. */
  lemma AtMost<W>(isMatch: Matcher<W>, names: seq<WildcardName<W>>, q: Labels, i: nat, p: WildcardName<W>)
    requires Selects(isMatch, names, q, i) && p in names && Matches(isMatch, p, q)
    ensures |q| - |names[i].name| <= |q| - |p.name|
    ensures |names[i].name| == |p.name| ==> Order(names[i]) <= Order(p)
  {
    var j :| 0 <= j < |names| && names[j] == p;
    assert RankAtMost(names, q, i, j);
  }

  lemma PreferredZone<W>(isMatch: Matcher<W>, names: seq<WildcardName<W>>, q: Labels, i: nat)
    requires Selects(isMatch, names, q, i) && !names[i].Sub?
    requires Full(LowerAll(q)) !in names && Default(LowerAll(q)) !in names && |LowerAll(q)| == |q|
    ensures Preferred(isMatch, names, q, names[i])
  {
    var lq, p := LowerAll(q), names[i];
    var level := |q| - |p.name|;
    assert p.name == lq[level..] && level > 0 && (p.Suffix? || p.Default?);
    forall l | 0 < l <= level && IsZone(names, q, l)
      ensures l == level && (Suffix(lq[level..]) in names ==> p.Suffix?)
    {
      if Suffix(lq[l..]) in names {
        AtMost(isMatch, names, q, i, Suffix(lq[l..]));
      } else {
        AtMost(isMatch, names, q, i, Default(lq[l..]));
      }
    }
    assert NearestZone(names, q, level);
    forall j | 0 <= j < |names| && IsPattern(isMatch, names[j], q) ensures false {
      AtMost(isMatch, names, q, i, names[j]);
    }
  }

  function KeyOf<W>(p: WildcardName<W>): Key
  {
    Key(KindOf(p), Encode(p.name))
  }

  lemma KeyInjective<W>(p: WildcardName<W>, p': WildcardName<W>)
    requires ShortLabels(p.name) && ShortLabels(p'.name) && KeyOf(p) == KeyOf(p')
    ensures p.name == p'.name && KindOf(p) == KindOf(p') && (!p.Sub? ==> p == p')
  {
    EncodeInjective(p.name, p'.name);
  }

  /** The position of a rule in insertion order. */
  function IndexOf<W(==)>(names: seq<WildcardName<W>>, p: WildcardName<W>): (r: Option<nat>)
    ensures r.None? <==> p !in names
    ensures r.Some? ==> r.value < |names| && names[r.value] == p
  {
    if names == [] then None
    else if names[|names| - 1] == p then Some(|names| - 1)
    else IndexOf(names[..|names| - 1], p)
  }

  ghost predicate Distinct<W>(names: seq<WildcardName<W>>) {
    forall i, j :: 0 <= i < j < |names| ==> names[i] != names[j]
  }

  /** The `*` rules written for `n`, in insertion order. */
  ghost function Bucket<W, T>(names: seq<WildcardName<W>>, values: seq<T>, n: Labels): (b: seq<(W, T)>)
    requires |names| == |values|
  {
    if names == [] then []
    else
      var last := |names| - 1;
      Bucket(names[..last], values[..last], n)
      + if names[last].Sub? && names[last].name == n then [(names[last].wildcard, values[last])] else []
  }

  lemma {:induction false} BucketConcat<W, T>(a: seq<WildcardName<W>>, va: seq<T>, b: seq<WildcardName<W>>, vb: seq<T>,
                                              n: Labels)
    requires |a| == |va| && |b| == |vb|
    ensures Bucket(a + b, va + vb, n) == Bucket(a, va, n) + Bucket(b, vb, n)
  {
    if b == [] {
      assert a + b == a && va + vb == va;
    } else {
      var last := |b| - 1;
      assert (a + b)[..|a + b| - 1] == a + b[..last] && (va + vb)[..|a + b| - 1] == va + vb[..last];
      BucketConcat(a, va, b[..last], vb[..last], n);
    }
  }

  /** A `*` rule's place in its bucket, and what comes before it there. */
  lemma BucketAt<W, T>(names: seq<WildcardName<W>>, values: seq<T>, n: Labels, i: nat)
    requires |names| == |values| && i < |names| && names[i].Sub? && names[i].name == n
    ensures var j := |Bucket(names[..i], values[..i], n)|;
            j < |Bucket(names, values, n)| && Bucket(names, values, n)[j] == (names[i].wildcard, values[i])
  {
    assert names == names[..i + 1] + names[i + 1..] && values == values[..i + 1] + values[i + 1..];
    BucketConcat(names[..i + 1], values[..i + 1], names[i + 1..], values[i + 1..], n);
    assert names[..i + 1][..i] == names[..i] && values[..i + 1][..i] == values[..i];
  }

  /** Every place in a bucket belongs to a rule. */
  lemma {:induction false} BucketSource<W, T>(names: seq<WildcardName<W>>, values: seq<T>, n: Labels, j: nat)
      returns (i: nat)
    requires |names| == |values| && j < |Bucket(names, values, n)|
    ensures i < |names| && names[i] == Sub(Bucket(names, values, n)[j].0, n)
            && values[i] == Bucket(names, values, n)[j].1
    ensures |Bucket(names[..i], values[..i], n)| == j
  {
    var last := |names| - 1;
    if j < |Bucket(names[..last], values[..last], n)| {
      i := BucketSource(names[..last], values[..last], n, j);
      assert names[..last][..i] == names[..i] && values[..last][..i] == values[..i];
    } else {
      i := last;
    }
  }

  /** No `*` rule for `n` means an empty bucket, and one means it is not empty. */
  lemma BucketEmpty<W, T>(names: seq<WildcardName<W>>, values: seq<T>, n: Labels)
    requires |names| == |values|
    ensures Bucket(names, values, n) == [] <==> forall i :: 0 <= i < |names| ==> !(names[i].Sub? && names[i].name == n)
  {
  }

  /** No rule matches at a nearer level. */
  ghost predicate NothingBelow<W>(isMatch: Matcher<W>, names: seq<WildcardName<W>>, q: Labels, level: nat) {
    forall i :: 0 <= i < |names| && Matches(isMatch, names[i], q) ==> |q| - |names[i].name| >= level
  }

  /** No `*` rule matches. */
  ghost predicate NoSub<W>(isMatch: Matcher<W>, names: seq<WildcardName<W>>, q: Labels) {
    forall i :: 0 <= i < |names| && names[i].Sub? ==> !Matches(isMatch, names[i], q)
  }

  lemma LevelName(q: Labels, level: nat)
    requires Fits(q) && level <= |q|
    ensures |LowerAll(q)| == |q| && Canonical(LowerAll(q)[level..])
    ensures Min(level, |q|) == level
  {
    var lq := LowerAll(q);
    LowerKeepsLength(q);
    LowerIdempotent(q);
    FitsSuffix(lq, level);
    assert LowerAll(lq)[level..] == LowerAll(lq[level..]);
  }

  lemma NothingBelowZero<W>(isMatch: Matcher<W>, names: seq<WildcardName<W>>, q: Labels)
    ensures NothingBelow(isMatch, names, q, 0)
  {
  }

  lemma NothingAnywhere<W>(isMatch: Matcher<W>, names: seq<WildcardName<W>>, q: Labels)
    requires NothingBelow(isMatch, names, q, |q| + 1)
    ensures Select(isMatch, names, q) == None
  {
  }

  /** What is left at a level a rule matches at. */
  lemma AtLevel<W>(isMatch: Matcher<W>, p: WildcardName<W>, q: Labels, level: nat)
    requires level <= |q| && Matches(isMatch, p, q) && |q| - |p.name| == level
    ensures p.name == LowerAll(q)[level..]
    ensures level == 0 ==> p.Full? || p.Default?
    ensures level > 0 ==> !p.Full?
    ensures p.Sub? ==> level == 1
  {
  }

  lemma NothingAtZero<W>(isMatch: Matcher<W>, names: seq<WildcardName<W>>, q: Labels)
    requires Full(LowerAll(q)[0..]) !in names && Default(LowerAll(q)[0..]) !in names
    ensures NothingBelow(isMatch, names, q, 1)
  {
  }

  lemma NothingAt<W>(isMatch: Matcher<W>, names: seq<WildcardName<W>>, q: Labels, level: nat)
    requires 0 < level <= |q| == |LowerAll(q)|
    requires NothingBelow(isMatch, names, q, level) && NoSub(isMatch, names, q)
    requires Suffix(LowerAll(q)[level..]) !in names && Default(LowerAll(q)[level..]) !in names
    ensures NothingBelow(isMatch, names, q, level + 1)
  {
  }

  /** A plain rule found at a level with nothing before it is the one of least rank. */
  lemma FoundPlain<W>(isMatch: Matcher<W>, names: seq<WildcardName<W>>, q: Labels, level: nat, p: WildcardName<W>)
    requires Distinct(names) && level <= |q| == |LowerAll(q)| && NothingBelow(isMatch, names, q, level)
    requires p in names && !p.Sub? && p.name == LowerAll(q)[level..]
    requires level == 0 ==> p.Full? || (p.Default? && Full(p.name) !in names)
    requires level > 0 ==> NoSub(isMatch, names, q) && (p.Suffix? || (p.Default? && Suffix(p.name) !in names))
    ensures Select(isMatch, names, q) == Some(IndexOf(names, p).value)
  {
    var i := IndexOf(names, p).value;
    forall j | 0 <= j < |names| && Matches(isMatch, names[j], q) ensures RankAtMost(names, q, i, j) {
      if |q| - |names[j].name| == level { AtLevel(isMatch, names[j], q, level); }
    }
    assert Matches(isMatch, p, q);
    SelectUnique(isMatch, names, q, i);
  }

  /** How many `*` rules for `n` come before position `i`. */
  ghost function Place<W, T>(names: seq<WildcardName<W>>, values: seq<T>, n: Labels, i: nat): nat
    requires |names| == |values| && i <= |names|
  {
    |Bucket(names[..i], values[..i], n)|
  }

  lemma PlaceGrows<W, T>(names: seq<WildcardName<W>>, values: seq<T>, n: Labels, i: nat, k: nat)
    requires |names| == |values| && i < k <= |names| && names[i].Sub? && names[i].name == n
    ensures Place(names, values, n, i) < Place(names, values, n, k)
  {
    assert names[..k][..i] == names[..i] && values[..k][..i] == values[..i];
    BucketAt(names[..k], values[..k], n, i);
  }

  function ReplaceAt<A>(s: seq<A>, i: nat, x: A): seq<A> { if i < |s| then s[i := x] else s }

  function RemoveAt<A>(s: seq<A>, i: nat): seq<A> { if i < |s| then s[..i] + s[i + 1..] else s }

  /** What one rule puts into the bucket of `n`. */
  ghost function Share<W, T>(p: WildcardName<W>, v: T, n: Labels): seq<(W, T)> {
    if p.Sub? && p.name == n then [(p.wildcard, v)] else []
  }

  lemma BucketAppend<W, T>(names: seq<WildcardName<W>>, values: seq<T>, p: WildcardName<W>, v: T, n: Labels)
    requires |names| == |values|
    ensures Bucket(names + [p], values + [v], n) == Bucket(names, values, n) + Share(p, v, n)
  {
  }

  lemma BucketSplit<W, T>(names: seq<WildcardName<W>>, values: seq<T>, i: nat, n: Labels)
    requires |names| == |values| && i < |names|
    ensures Bucket(names, values, n) ==
            Bucket(names[..i], values[..i], n) + Share(names[i], values[i], n)
                + Bucket(names[i + 1..], values[i + 1..], n)
  {
    assert names == names[..i] + [names[i]] + names[i + 1..] && values == values[..i] + [values[i]] + values[i + 1..];
    BucketConcat(names[..i] + [names[i]], values[..i] + [values[i]], names[i + 1..], values[i + 1..], n);
    BucketAppend(names[..i], values[..i], names[i], values[i], n);
  }

  /** Giving a rule another value changes its own place in its own bucket only. */
  lemma BucketReplace<W, T>(names: seq<WildcardName<W>>, values: seq<T>, i: nat, v: T, n: Labels)
    requires |names| == |values| && i < |names|
    ensures Bucket(names, values[i := v], n) ==
            if names[i].Sub? && names[i].name == n
            then ReplaceAt(Bucket(names, values, n), Place(names, values, n, i), (names[i].wildcard, v))
            else Bucket(names, values, n)
  {
    hide Bucket;
    BucketSplit(names, values, i, n);
    BucketSplit(names, values[i := v], i, n);
    assert values[i := v][..i] == values[..i] && values[i := v][i + 1..] == values[i + 1..];
    var a, b := Bucket(names[..i], values[..i], n), Bucket(names[i + 1..], values[i + 1..], n);
    var c, c' := Share(names[i], values[i], n), Share(names[i], v, n);
    assert |c| == 1 ==> (a + c + b)[|a| := c'[0]] == a + c' + b;
  }

  /** Removing a rule removes its own place in its own bucket only. */
  lemma BucketRemove<W, T>(names: seq<WildcardName<W>>, values: seq<T>, i: nat, n: Labels)
    requires |names| == |values| && i < |names|
    ensures Bucket(Without(names, i), Without(values, i), n) ==
            if names[i].Sub? && names[i].name == n
            then RemoveAt(Bucket(names, values, n), Place(names, values, n, i))
            else Bucket(names, values, n)
  {
    hide Bucket;
    BucketSplit(names, values, i, n);
    BucketConcat(names[..i], values[..i], names[i + 1..], values[i + 1..], n);
    var a, b := Bucket(names[..i], values[..i], n), Bucket(names[i + 1..], values[i + 1..], n);
    var c := Share(names[i], values[i], n);
    assert |c| == 1 ==> (a + c + b)[..|a|] == a && (a + c + b)[|a| + 1..] == b;
    assert |c| == 0 ==> a + c + b == a + b;
  }

  function Without<A>(s: seq<A>, i: nat): seq<A>
    requires i < |s|
  {
    s[..i] + s[i + 1..]
  }

  lemma FoundSub<W, T>(isMatch: Matcher<W>, names: seq<WildcardName<W>>, values: seq<T>, q: Labels, j: nat)
    requires |names| == |values| && q != [] && NothingBelow(isMatch, names, q, 1)
    requires var b := Bucket(names, values, LowerAll(q)[1..]);
             j < |b| && isMatch(b[j].0, q[0]) && forall k :: 0 <= k < j ==> !isMatch(b[k].0, q[0])
    ensures var s := Select(isMatch, names, q);
            s.Some? && values[s.value] == Bucket(names, values, LowerAll(q)[1..])[j].1
  {
    var n := LowerAll(q)[1..];
    var b := Bucket(names, values, n);
    var i := BucketSource(names, values, n, j);
    BucketAt(names, values, n, i);
    forall i' | 0 <= i' < |names| && Matches(isMatch, names[i'], q) ensures RankAtMost(names, q, i, i') {
      if |q| - |names[i'].name| == 1 {
        AtLevel(isMatch, names[i'], q, 1);
        if names[i'].Sub? && i' < i {
          PlaceGrows(names, values, n, i', i);
          BucketAt(names, values, n, i');
        }
      }
    }
    assert Matches(isMatch, names[i], q);
    SelectUnique(isMatch, names, q, i);
  }

  lemma NoSubFound<W, T>(isMatch: Matcher<W>, names: seq<WildcardName<W>>, values: seq<T>, q: Labels)
    requires |names| == |values| && q != []
    requires var b := Bucket(names, values, LowerAll(q)[1..]);
             forall k :: 0 <= k < |b| ==> !isMatch(b[k].0, q[0])
    ensures NoSub(isMatch, names, q)
  {
    forall i | 0 <= i < |names| && names[i].Sub? && Matches(isMatch, names[i], q) ensures false {
      BucketAt(names, values, LowerAll(q)[1..], i);
    }
  }

  lemma RemoveKeepsRest<W>(names: seq<WildcardName<W>>, at: nat)
    requires Distinct(names) && at < |names|
    ensures Distinct(Without(names, at))
    ensures forall i :: 0 <= i < |names| && i != at ==> names[i] in Without(names, at)
    ensures names[at] !in Without(names, at)
  {
    forall i | 0 <= i < |names| && i != at ensures names[i] in Without(names, at) {
      assert names[i] == Without(names, at)[if i < at then i else i - 1];
    }
  }

  /** What a rule is bound to. */
  function Lookup<W(==), T>(names: seq<WildcardName<W>>, values: seq<T>, p: WildcardName<W>): Option<T>
    requires |names| == |values|
  {
    match IndexOf(names, p) case None => None case Some(i) => Some(values[i])
  }

  function Entry<T>(m: map<Key, T>, k: Key): Option<T> { if k in m then Some(m[k]) else None }

  /** The map of plain names is the binding of each plain rule, and nothing else. */
  ghost predicate PlainIndex<W(!new), T>(plain: map<Key, T>, names: seq<WildcardName<W>>, values: seq<T>)
    requires |names| == |values|
  {
    && (forall p: WildcardName<W> :: !p.Sub? && Canonical(p.name) ==>
        Entry(plain, KeyOf(p)) == Lookup(names, values, p))
    && (forall k :: k in plain ==> exists p: WildcardName<W> :: PlainKey(p, k))
  }

  ghost predicate PlainKey<W>(p: WildcardName<W>, k: Key) { !p.Sub? && Canonical(p.name) && KeyOf(p) == k }

  /** The map of buckets is each name's nonempty bucket of `*` rules, and nothing else. */
  ghost predicate SubIndex<W, T>(subs: map<Key, seq<(W, T)>>, names: seq<WildcardName<W>>, values: seq<T>)
    requires |names| == |values|
  {
    && (forall n :: Canonical(n) ==>
          Entry(subs, SubKey(n)) == Nonempty(Bucket(names, values, n)))
    && (forall k :: k in subs ==> exists n :: Canonical(n) && SubKey(n) == k)
  }

  function SubKey(n: Labels): Key { Key(SubKind, Encode(n)) }

  function Nonempty<A>(s: seq<A>): Option<seq<A>> { if |s| == 0 then None else Some(s) }

  /** Rebinding one plain rule. */
  lemma PlainUpdate<W(!new), T>(plain: map<Key, T>, names: seq<WildcardName<W>>, values: seq<T>,
                                    names': seq<WildcardName<W>>, values': seq<T>, p: WildcardName<W>)
    requires |names| == |values| && |names'| == |values'| && PlainIndex(plain, names, values)
    requires !p.Sub? && Canonical(p.name)
    requires forall p': WildcardName<W> :: !p'.Sub? && p' != p ==>
             Lookup(names', values', p') == Lookup(names, values, p')
    ensures PlainIndex(match Lookup(names', values', p)
                       case None => plain - {KeyOf(p)}
                       case Some(v) => plain[KeyOf(p) := v],
                       names', values')
  {
    hide Canonical, Encode, Lookup;
    forall p': WildcardName<W> | !p'.Sub? && Canonical(p'.name) && p' != p ensures KeyOf(p') != KeyOf(p) {
      if KeyOf(p') == KeyOf(p) { CanonicalShort(p.name); CanonicalShort(p'.name); KeyInjective(p, p'); }
    }
    assert PlainKey(p, KeyOf(p));
  }

  lemma CanonicalShort(n: Labels)
    requires Canonical(n)
    ensures ShortLabels(n)
  {
  }

  /** Changing one bucket. */
  lemma SubUpdate<W, T>(subs: map<Key, seq<(W, T)>>, names: seq<WildcardName<W>>, values: seq<T>,
                        names': seq<WildcardName<W>>, values': seq<T>, n: Labels)
    requires |names| == |values| && |names'| == |values'| && SubIndex(subs, names, values) && Canonical(n)
    requires forall m: Labels :: m != n ==> Bucket(names', values', m) == Bucket(names, values, m)
    ensures SubIndex(PutBucket(subs, SubKey(n), Bucket(names', values', n)), names', values')
  {
    hide Canonical, Bucket, SubKey, Nonempty;
    var k, b := SubKey(n), Bucket(names', values', n);
    var subs' := PutBucket(subs, k, b);
    forall m | Canonical(m) ensures Entry(subs', SubKey(m)) == Nonempty(Bucket(names', values', m)) {
      if m != n { SubKeyInjective(m, n); }
      PutBucketEntry(subs, k, b, SubKey(m));
    }
    forall k' | k' in subs' ensures exists m :: Canonical(m) && SubKey(m) == k' {
      if k' != k { assert k' in subs; }
    }
  }

  /** An empty bucket is not kept. */
  function PutBucket<W, T>(subs: map<Key, seq<(W, T)>>, k: Key, b: seq<(W, T)>): map<Key, seq<(W, T)>> {
    if |b| == 0 then subs - {k} else subs[k := b]
  }

  lemma PutBucketEntry<W, T>(subs: map<Key, seq<(W, T)>>, k: Key, b: seq<(W, T)>, k': Key)
    ensures Entry(PutBucket(subs, k, b), k') == if k' == k then Nonempty(b) else Entry(subs, k')
  {
  }

  lemma SubKeyInjective(m: Labels, n: Labels)
    requires Canonical(m) && Canonical(n) && m != n
    ensures SubKey(m) != SubKey(n)
  {
    if SubKey(m) == SubKey(n) { EncodeInjective(m, n); }
  }

  lemma PlainSame<W(!new), T>(plain: map<Key, T>, names: seq<WildcardName<W>>, values: seq<T>,
                                  names': seq<WildcardName<W>>, values': seq<T>)
    requires |names| == |values| && |names'| == |values'| && PlainIndex(plain, names, values)
    requires forall p: WildcardName<W> :: !p.Sub? ==> Lookup(names', values', p) == Lookup(names, values, p)
    ensures PlainIndex(plain, names', values')
  {
  }

  lemma SubSame<W, T>(subs: map<Key, seq<(W, T)>>, names: seq<WildcardName<W>>, values: seq<T>,
                      names': seq<WildcardName<W>>, values': seq<T>)
    requires |names| == |values| && |names'| == |values'| && SubIndex(subs, names, values)
    requires forall m: Labels :: Bucket(names', values', m) == Bucket(names, values, m)
    ensures SubIndex(subs, names', values')
  {
  }

  lemma LookupAppend<W, T>(names: seq<WildcardName<W>>, values: seq<T>, p: WildcardName<W>, v: T, p': WildcardName<W>)
    requires |names| == |values|
    ensures Lookup(names + [p], values + [v], p') == if p' == p then Some(v) else Lookup(names, values, p')
  {
  }

  lemma LookupReplace<W, T>(names: seq<WildcardName<W>>, values: seq<T>, i: nat, v: T, p': WildcardName<W>)
    requires |names| == |values| && Distinct(names) && i < |names|
    ensures Lookup(names, values[i := v], p') == if p' == names[i] then Some(v) else Lookup(names, values, p')
  {
  }

  lemma IndexOfAt<W>(names: seq<WildcardName<W>>, i: nat)
    requires Distinct(names) && i < |names|
    ensures IndexOf(names, names[i]) == Some(i)
  {
  }

  lemma LookupRemove<W, T>(names: seq<WildcardName<W>>, values: seq<T>, i: nat, p': WildcardName<W>)
    requires |names| == |values| && Distinct(names) && i < |names|
    ensures Lookup(Without(names, i), Without(values, i), p') ==
            if p' == names[i] then None else Lookup(names, values, p')
  {
    RemoveKeepsRest(names, i);
    hide IndexOf, Distinct;
    if p' != names[i] && p' in names {
      LookupOther(names, values, i, IndexOf(names, p').value);
    } else if p' !in names {
      assert p' !in Without(names, i);
    }
  }

  lemma LookupOther<W, T>(names: seq<WildcardName<W>>, values: seq<T>, i: nat, j: nat)
    requires |names| == |values| && Distinct(names) && i < |names| && j < |names| && j != i
    ensures Lookup(Without(names, i), Without(values, i), names[j]) == Lookup(names, values, names[j]) ==
            Some(values[j])
  {
    RemoveKeepsRest(names, i);
    hide Distinct, IndexOf;
    IndexOfAt(names, j);
    var j' := if j < i then j else j - 1;
    assert Without(names, i)[j'] == names[j] && Without(values, i)[j'] == values[j];
    IndexOfAt(Without(names, i), j');
  }

  /** Removing a `*` rule changes its own bucket only. */
  lemma SubRemoved<W(!new), T>(plain: map<Key, T>, subs: map<Key, seq<(W, T)>>,
                               names: seq<WildcardName<W>>, values: seq<T>, at: nat)
    requires |names| == |values| && Distinct(names) && at < |names| && names[at].Sub? && Canonical(names[at].name)
    requires PlainIndex(plain, names, values) && SubIndex(subs, names, values)
    ensures PlainIndex(plain, Without(names, at), Without(values, at))
    ensures var n := names[at].name;
            SubIndex(PutBucket(subs, SubKey(n), Bucket(Without(names, at), Without(values, at), n)),
                     Without(names, at), Without(values, at))
  {
    hide Encode, Canonical, Bucket, PlainIndex, SubIndex, SubKey, Distinct;
    var names', values' := Without(names, at), Without(values, at);
    forall p' { LookupRemove(names, values, at, p'); }
    forall m { BucketRemove(names, values, at, m); }
    PlainSame(plain, names, values, names', values');
    SubUpdate(subs, names, values, names', values', names[at].name);
  }

  class DomainMap<W(!new, ==), T> {
    const isMatch: Matcher<W>
    var plain: map<Key, T>
    var subs: map<Key, seq<(W, T)>>
    /** The rules in insertion order and their values. */
    ghost var names: seq<WildcardName<W>>
    ghost var values: seq<T>

    ghost predicate Valid()
      reads this
    {
      && |names| == |values|
      && Distinct(names)
      && (forall i :: 0 <= i < |names| ==> Canonical(names[i].name))
      && PlainIndex(plain, names, values)
      && SubIndex(subs, names, values)
    }

    constructor (isMatch: Matcher<W>)
      ensures Valid() && names == [] && values == [] && this.isMatch == isMatch
    {
      this.isMatch := isMatch;
      plain, subs := map[], map[];
      names, values := [], [];
    }

    method IsEmpty() returns (r: bool)
      requires Valid()
      ensures r <==> names == []
    {
      r := plain == map[] && subs == map[];
      if names != [] {
        if names[0].Sub? {
          BucketEmpty(names, values, names[0].name);
        } else {
          assert Lookup(names, values, names[0]).Some? && Entry(plain, KeyOf(names[0])).Some?;
        }
      }
    }

    /** The stored value of one kind and name. */
    method GetPlain(kind: Kind, wire: seq<byte>, ghost p: WildcardName<W>) returns (r: Option<T>)
      requires Valid() && !p.Sub? && Canonical(p.name) && KindOf(p) == kind && wire == Encode(p.name)
      ensures r == Lookup(names, values, p)
    {
      hide Canonical, Encode, Bucket, Lookup;
      r := Entry(plain, Key(kind, wire));
      assert r == Entry(plain, KeyOf(p));
    }

    /** The `*` rules of one name, in insertion order. */
    method GetBucket(wire: seq<byte>, ghost n: Labels) returns (b: seq<(W, T)>)
      requires Valid() && Canonical(n) && wire == Encode(n)
      ensures b == Bucket(names, values, n)
    {
      hide Canonical, Encode, Bucket, Lookup;
      var e := Entry(subs, Key(SubKind, wire));
      b := if e.Some? then e.value else [];
    }

    /** The matching rule of least rank. A name beyond the limits finds nothing. */
    method Find(name: Labels) returns (r: Option<T>)
      requires Valid()
      ensures !Fits(Stripped(name)) ==> r == None
      ensures Fits(Stripped(name)) ==>
                r == match Select(isMatch, names, Stripped(name)) case None => None case Some(i) => Some(values[i])
    {
      var q := Stripped(name);
      var empty := IsEmpty();
      if empty { return None; }
      var packed := WireName.New(q);
      if packed.None? { return None; }
      r := FindPacked(packed.value, q);
    }

    method FindPacked(wire: WireName, q: Labels) returns (r: Option<T>)
      requires Valid() && Fits(q) && wire.Holds(LowerAll(q))
      ensures r == match Select(isMatch, names, q) case None => None case Some(i) => Some(values[i])
    {
      hide Matches, Select, Selects, Encode, LowerAll, Fits, Canonical, PlainIndex, SubIndex, NothingBelow, NoSub,
        Bucket, IndexOf;
      ghost var lq := LowerAll(q);
      LevelName(q, 0);
      NothingBelowZero(isMatch, names, q);
      var w := wire.Parent(0, lq);
      r := GetPlain(FullKind, w, Full(lq[0..]));
      if r.Some? { FoundPlain(isMatch, names, q, 0, Full(lq[0..])); return; }
      r := GetPlain(DefaultKind, w, Default(lq[0..]));
      if r.Some? { FoundPlain(isMatch, names, q, 0, Default(lq[0..])); return; }
      NothingAtZero(isMatch, names, q);

      for level := 1 to |q| + 1
        invariant NothingBelow(isMatch, names, q, level)
        invariant level > 1 ==> NoSub(isMatch, names, q)
      {
        LevelName(q, level);
        w := wire.Parent(level, lq);
        if level == 1 {
          r := FindSub(w, q);
          if r.Some? { return; }
        }
        r := GetPlain(SuffixKind, w, Suffix(lq[level..]));
        if r.Some? { FoundPlain(isMatch, names, q, level, Suffix(lq[level..])); return; }
        r := GetPlain(DefaultKind, w, Default(lq[level..]));
        if r.Some? { FoundPlain(isMatch, names, q, level, Default(lq[level..])); return; }
        NothingAt(isMatch, names, q, level);
      }
      NothingAnywhere(isMatch, names, q);
      r := None;
    }

    /** The first `*` rule for the query's parent whose wildcard matches the query's first label. */
    method FindSub(w: seq<byte>, q: Labels) returns (r: Option<T>)
      requires Valid() && q != [] && Canonical(LowerAll(q)[1..]) && w == Encode(LowerAll(q)[1..])
      requires NothingBelow(isMatch, names, q, 1)
      ensures r.None? ==> NoSub(isMatch, names, q)
      ensures r.Some? ==> r == match Select(isMatch, names, q) case None => None case Some(i) => Some(values[i])
    {
      hide Matches, Select, Selects, Encode, Fits, Canonical, PlainIndex, SubIndex, NothingBelow, NoSub, Bucket,
        IndexOf;
      ghost var n := LowerAll(q)[1..];
      var b := GetBucket(w, n);
      for j := 0 to |b|
        invariant forall k :: 0 <= k < j ==> !isMatch(b[k].0, q[0])
      {
        if isMatch(b[j].0, q[0]) {
          FoundSub(isMatch, names, values, q, j);
          return Some(b[j].1);
        }
      }
      NoSubFound(isMatch, names, values, q);
      r := None;
    }

    /** Looks one rule up, without matching. */
    method GetExact(name: WildcardName<W>) returns (r: Option<T>)
      requires Valid()
      ensures r == if Fits(name.name) && Normal(name) in names
                   then Some(values[IndexOf(names, Normal(name)).value]) else None
    {
      var packed := WireName.New(name.name);
      if packed.None? { return None; }
      LevelName(name.name, 0);
      ghost var n := LowerAll(name.name);
      assert n[0..] == n;
      var w := packed.value.Parent(0, n);
      hide Encode, LowerAll, Fits, Canonical, PlainIndex, SubIndex, Bucket;
      if name.Sub? {
        var b := GetBucket(w, n);
        var j := Position(b, name.wildcard, n);
        r := if j.Some? then Some(b[j.value].1) else None;
      } else {
        r := GetPlain(KindOf(name), w, Normal(name));
      }
    }

    /** Where a bucket holds a wildcard: at the place of the one rule with it. */
    method Position(b: seq<(W, T)>, wildcard: W, ghost n: Labels) returns (j: Option<nat>)
      requires Valid() && b == Bucket(names, values, n)
      ensures j.None? <==> Sub(wildcard, n) !in names
      ensures j.Some? ==> j.value < |b| && b[j.value].0 == wildcard
      ensures j.Some? ==> var i := IndexOf(names, Sub(wildcard, n)).value;
                          b[j.value].1 == values[i] && j.value == Place(names, values, n, i)
    {
      hide Encode, LowerAll, Fits, Canonical, PlainIndex, SubIndex, Bucket;
      for k := 0 to |b|
        invariant forall l :: 0 <= l < k ==> b[l].0 != wildcard
      {
        if b[k].0 == wildcard {
          ghost var i := BucketSource(names, values, n, k);
          return Some(k);
        }
      }
      if Sub(wildcard, n) in names { BucketAt(names, values, n, IndexOf(names, Sub(wildcard, n)).value); }
      j := None;
    }

    /** Binds a rule to a value and hands back what it was bound to. Names beyond the limits are ignored. */
    method Insert(name: WildcardName<W>, value: T) returns (previous: Option<T>)
      requires Valid()
      modifies this
      ensures Valid()
      ensures !Fits(name.name) ==> names == old(names) && values == old(values) && previous == None
      ensures Fits(name.name) ==>
                match IndexOf(old(names), Normal(name))
                case None => names == old(names) + [Normal(name)] && values == old(values) + [value] && previous == None
                case Some(i) =>
                  names == old(names) && values == old(values)[i := value] && previous == Some(old(values)[i])
    {
      var packed := WireName.New(name.name);
      if packed.None? { return None; }
      LevelName(name.name, 0);
      ghost var n := LowerAll(name.name);
      assert n[0..] == n;
      var w := packed.value.Parent(0, n);
      if name.Sub? {
        previous := InsertSub(w, name.wildcard, value, n);
      } else {
        previous := InsertPlain(KindOf(name), w, value, Normal(name));
      }
    }

    method InsertPlain(kind: Kind, wire: seq<byte>, value: T, ghost p: WildcardName<W>) returns (previous: Option<T>)
      requires Valid() && !p.Sub? && Canonical(p.name) && kind == KindOf(p) && wire == Encode(p.name)
      modifies `plain, `names, `values
      ensures Valid()
      ensures match IndexOf(old(names), p)
              case None => names == old(names) + [p] && values == old(values) + [value] && previous == None
              case Some(i) =>
                names == old(names) && values == old(values)[i := value] && previous == Some(old(values)[i])
    {
      hide Encode, Canonical, Bucket, PlainIndex, SubIndex;
      previous := GetPlain(kind, wire, p);
      ghost var names0, values0 := names, values;
      plain := plain[Key(kind, wire) := value];
      if p in names {
        ghost var at := IndexOf(names, p).value;
        values := values[at := value];
        forall p' { LookupReplace(names0, values0, at, value, p'); }
        forall m { BucketReplace(names0, values0, at, value, m); }
      } else {
        names, values := names + [p], values + [value];
        forall p' { LookupAppend(names0, values0, p, value, p'); }
        forall m { BucketAppend(names0, values0, p, value, m); }
      }
      PlainUpdate(old(plain), names0, values0, names, values, p);
      SubSame(subs, names0, values0, names, values);
    }

    method InsertSub(wire: seq<byte>, wildcard: W, value: T, ghost n: Labels) returns (previous: Option<T>)
      requires Valid() && Canonical(n) && wire == Encode(n)
      modifies `subs, `names, `values
      ensures Valid()
      ensures match IndexOf(old(names), Sub(wildcard, n))
              case None =>
                names == old(names) + [Sub(wildcard, n)] && values == old(values) + [value] && previous == None
              case Some(i) =>
                names == old(names) && values == old(values)[i := value] && previous == Some(old(values)[i])
    {
      hide Encode, Canonical, Bucket, PlainIndex, SubIndex;
      var k := Key(SubKind, wire);
      var b := GetBucket(wire, n);
      var j := Position(b, wildcard, n);
      ghost var p, names0, values0 := Sub(wildcard, n), names, values;
      if j.Some? {
        previous := Some(b[j.value].1);
        subs := subs[k := ReplaceAt(b, j.value, (wildcard, value))];
        ghost var at := IndexOf(names, p).value;
        values := values[at := value];
        forall p' { LookupReplace(names0, values0, at, value, p'); }
        forall m { BucketReplace(names0, values0, at, value, m); }
      } else {
        previous := None;
        subs := subs[k := b + [(wildcard, value)]];
        names, values := names + [p], values + [value];
        forall p' { LookupAppend(names0, values0, p, value, p'); }
        forall m { BucketAppend(names0, values0, p, value, m); }
      }
      assert subs[k] == Bucket(names, values, n) != [];
      PlainSame(plain, names0, values0, names, values);
      SubUpdate(old(subs), names0, values0, names, values, n);
    }

    /** Removes the rule for exactly this name and kind, returning its value. */
    method Remove(name: WildcardName<W>) returns (r: Option<T>)
      requires Valid()
      modifies this
      ensures Valid()
      ensures if Fits(name.name) && Normal(name) in old(names)
              then var i := IndexOf(old(names), Normal(name)).value;
                   names == Without(old(names), i) && values == Without(old(values), i) && r == Some(old(values)[i])
              else names == old(names) && values == old(values) && r == None
    {
      var packed := WireName.New(name.name);
      if packed.None? { return None; }
      LevelName(name.name, 0);
      ghost var n := LowerAll(name.name);
      assert n[0..] == n;
      var w := packed.value.Parent(0, n);
      if name.Sub? {
        r := RemoveSub(w, name.wildcard, n);
      } else {
        r := RemovePlain(KindOf(name), w, Normal(name));
      }
    }

    method RemovePlain(kind: Kind, wire: seq<byte>, ghost p: WildcardName<W>) returns (r: Option<T>)
      requires Valid() && !p.Sub? && Canonical(p.name) && kind == KindOf(p) && wire == Encode(p.name)
      modifies `plain, `names, `values
      ensures Valid()
      ensures if p in old(names)
              then var i := IndexOf(old(names), p).value;
                   names == Without(old(names), i) && values == Without(old(values), i) && r == Some(old(values)[i])
              else names == old(names) && values == old(values) && r == None
    {
      hide Encode, Canonical, Bucket, PlainIndex, SubIndex;
      r := GetPlain(kind, wire, p);
      if r.None? { return; }
      plain := plain - {Key(kind, wire)};
      ghost var names0, values0, at := names, values, IndexOf(names, p).value;
      names, values := Without(names, at), Without(values, at);
      forall p' { LookupRemove(names0, values0, at, p'); }
      forall m { BucketRemove(names0, values0, at, m); }
      RemoveKeepsRest(names0, at);
      PlainUpdate(old(plain), names0, values0, names, values, p);
      SubSame(subs, names0, values0, names, values);
    }

    method RemoveSub(wire: seq<byte>, wildcard: W, ghost n: Labels) returns (r: Option<T>)
      requires Valid() && Canonical(n) && wire == Encode(n)
      modifies `subs, `names, `values
      ensures Valid()
      ensures if Sub(wildcard, n) in old(names)
              then var i := IndexOf(old(names), Sub(wildcard, n)).value;
                   names == Without(old(names), i) && values == Without(old(values), i) && r == Some(old(values)[i])
              else names == old(names) && values == old(values) && r == None
    {
      hide Encode, Canonical, Bucket, PlainIndex, SubIndex;
      var k := Key(SubKind, wire);
      var b := GetBucket(wire, n);
      var j := Position(b, wildcard, n);
      if j.None? { return None; }
      ghost var p, names0, values0 := Sub(wildcard, n), names, values;
      ghost var at := IndexOf(names, p).value;
      r := Some(b[j.value].1);
      var rest := RemoveAt(b, j.value);
      subs := PutBucket(subs, k, rest);
      names, values := Without(names, at), Without(values, at);
      RemoveKeepsRest(names0, at);
      BucketRemove(names0, values0, at, n);
      assert rest == Bucket(names, values, n);
      SubRemoved(plain, old(subs), names0, values0, at);
    }
  }
}
