/** The umbrella event of each namespace, and the conversions generated into it. */
module Umbrella {
  import opened Wrappers
  import opened SchemaModel
  import opened Namespaces

  // ---- Relative paths -------------------------------------------------------

  datatype Token = Super | Module(segment: Identifier)

  /** The type at the end of a path: an entity's event, or a namespace's umbrella. */
  datatype TypeName = EntityEvent(name: Identifier) | UmbrellaEvent

  datatype RelativePath = RelativePath(tokens: seq<Token>, name: TypeName)

  /** The type a path denotes, named from the root. */
  datatype Target = EntityAt(path: Path) | UmbrellaAt(namespace: seq<Identifier>)

  /** Follows tokens from a namespace; there is nothing above the root. */
  function Resolve(from: seq<Identifier>, tokens: seq<Token>): Option<seq<Identifier>>
    decreases |tokens|
  {
    if tokens == [] then Some(from)
    else match tokens[0]
      case Super => if from == [] then None else Resolve(from[..|from| - 1], tokens[1..])
      case Module(segment) => Resolve(from + [segment], tokens[1..])
  }

  function ResolveType(from: seq<Identifier>, r: RelativePath): Option<Target> {
    var ns := Resolve(from, r.tokens);
    if ns.None? then None
    else match r.name
      case EntityEvent(name) => Some(EntityAt(Path(ns.value, name)))
      case UmbrellaEvent => Some(UmbrellaAt(ns.value))
  }

  function CommonPrefix(a: seq<Identifier>, b: seq<Identifier>): (n: nat)
    ensures n <= |a| && n <= |b| && a[..n] == b[..n]
    ensures n < |a| && n < |b| ==> a[n] != b[n]
  {
    if a == [] || b == [] || a[0] != b[0] then 0
    else
      var n := CommonPrefix(a[1..], b[1..]);
      assert a[..n + 1] == [a[0]] + a[1..][..n] && b[..n + 1] == [b[0]] + b[1..][..n];
      n + 1
  }

  function Supers(n: nat): seq<Token> {
    seq(n, _ => Super)
  }

  function Modules(segments: seq<Identifier>): seq<Token> {
    seq(|segments|, i requires 0 <= i < |segments| => Module(segments[i]))
  }

  /** From `source` up to the last namespace in common, then down to `target`. */
  function RelativeTokens(target: seq<Identifier>, source: seq<Identifier>): seq<Token> {
    var common := CommonPrefix(target, source);
    Supers(|source| - common) + Modules(target[common..])
  }

  /** The tokens go up exactly as far as the paths differ, and down from there. */
  ghost predicate Direct(tokens: seq<Token>, target: seq<Identifier>, source: seq<Identifier>) {
    exists n: nat :: IsCommon(target, source, n) && GoesBy(tokens, target, source, n)
  }

  /** The paths agree in their first `n` segments and no further. */
  ghost predicate IsCommon(a: seq<Identifier>, b: seq<Identifier>, n: nat) {
    n <= |a| && n <= |b| && a[..n] == b[..n] && (n < |a| && n < |b| ==> a[n] != b[n])
  }

  ghost predicate GoesBy(tokens: seq<Token>, target: seq<Identifier>, source: seq<Identifier>, n: nat)
    requires IsCommon(target, source, n)
  {
    var up := |source| - n;
    && |tokens| == up + (|target| - n)
    && (forall i | 0 <= i < up :: tokens[i] == Super)
    && (forall i | n <= i < |target| :: tokens[up + i - n] == Module(target[i]))
  }

  lemma TokensAreDirect(target: seq<Identifier>, source: seq<Identifier>)
    ensures Direct(RelativeTokens(target, source), target, source)
  {
    assert IsCommon(target, source, CommonPrefix(target, source));
    assert GoesBy(RelativeTokens(target, source), target, source, CommonPrefix(target, source));
  }

  method RelativeTypePath(path: Path, source: seq<Identifier>) returns (r: RelativePath)
    ensures r == RelativePath(RelativeTokens(path.namespace, source), EntityEvent(path.name))
    ensures ResolveType(source, r) == Some(EntityAt(path))
    ensures Direct(r.tokens, path.namespace, source)
  {
    var common := CommonPrefix(path.namespace, source);
    var modules := [];
    for i := common to |path.namespace|
      invariant modules == Modules(path.namespace[common..i])
    {
      assert path.namespace[common..i + 1] == path.namespace[common..i] + [path.namespace[i]];
      ModulesSnoc(path.namespace[common..i], path.namespace[i]);
      modules := modules + [Module(path.namespace[i])];
    }
    assert path.namespace[common..|path.namespace|] == path.namespace[common..];
    r := RelativePath(Supers(|source| - common) + modules, EntityEvent(path.name));
    RelativePathResolves(path, source);
    TokensAreDirect(path.namespace, source);
  }

  lemma ModulesSnoc(segments: seq<Identifier>, segment: Identifier)
    ensures Modules(segments + [segment]) == Modules(segments) + [Module(segment)]
  {}

  lemma {:induction false} ModulesResolve(from: seq<Identifier>, segments: seq<Identifier>)
    ensures Resolve(from, Modules(segments)) == Some(from + segments)
    decreases |segments|
  {
    if segments == [] {
      assert from + [] == from;
    } else {
      assert Modules(segments)[1..] == Modules(segments[1..]);
      ModulesResolve(from + [segments[0]], segments[1..]);
      assert from + [segments[0]] + segments[1..] == from + segments;
    }
  }

  lemma {:induction false} SupersResolve(from: seq<Identifier>, n: nat, rest: seq<Token>)
    requires n <= |from|
    ensures Resolve(from, Supers(n) + rest) == Resolve(from[..|from| - n], rest)
    decreases n
  {
    if n == 0 {
      assert Supers(0) + rest == rest && from[..|from|] == from;
    } else {
      assert (Supers(n) + rest)[1..] == Supers(n - 1) + rest;
      SupersResolve(from[..|from| - 1], n - 1, rest);
      assert from[..|from| - 1][..|from| - n] == from[..|from| - n];
    }
  }

  /** A relative path resolves back to its target from where it was written. */
  lemma RelativeTokensResolve(target: seq<Identifier>, source: seq<Identifier>)
    ensures Resolve(source, RelativeTokens(target, source)) == Some(target)
  {
    var common := CommonPrefix(target, source);
    SupersResolve(source, |source| - common, Modules(target[common..]));
    ModulesResolve(source[..common], target[common..]);
    assert target[..common] + target[common..] == target;
  }

  lemma RelativePathResolves(path: Path, source: seq<Identifier>)
    ensures ResolveType(source, RelativePath(RelativeTokens(path.namespace, source), EntityEvent(path.name)))
         == Some(EntityAt(path))
  {
    RelativeTokensResolve(path.namespace, source);
  }

  // ---- No shorter path ------------------------------------------------------

  /** How many tokens lead from `a` to `b`. */
  ghost function Distance(a: seq<Identifier>, b: seq<Identifier>): nat {
    |a| + |b| - 2 * CommonPrefix(a, b)
  }

  lemma {:induction false} CommonUnique(a: seq<Identifier>, b: seq<Identifier>, n: nat)
    requires IsCommon(a, b, n)
    ensures CommonPrefix(a, b) == n
  {
    var m := CommonPrefix(a, b);
    assert forall i | 0 <= i < m :: a[i] == a[..m][i] == b[..m][i] == b[i];
    assert forall i | 0 <= i < n :: a[i] == a[..n][i] == b[..n][i] == b[i];
  }

  /** One token brings the target nearer by at most one. */
  lemma {:induction false} UpIsOne(from: seq<Identifier>, target: seq<Identifier>)
    requires from != []
    ensures Distance(from, target) <= Distance(from[..|from| - 1], target) + 1
  {
    var n, up := CommonPrefix(from, target), from[..|from| - 1];
    var m := if n == |from| then n - 1 else n;
    assert up[..m] == from[..n][..m] && target[..m] == target[..n][..m];
    assert IsCommon(up, target, m);
    CommonUnique(up, target, m);
  }

  lemma {:induction false} DownIsOne(from: seq<Identifier>, segment: Identifier, target: seq<Identifier>)
    ensures Distance(from, target) <= Distance(from + [segment], target) + 1
  {
    var n, down := CommonPrefix(from, target), from + [segment];
    var m := if n == |from| && n < |target| && target[n] == segment then n + 1 else n;
    assert down[..n] == from[..n];
    assert m > n ==> down[..m] == down[..n] + [segment] && target[..m] == target[..n] + [segment];
    assert IsCommon(down, target, m);
    CommonUnique(down, target, m);
  }

  /** No path that leads to the target is shorter than the relative one. */
  lemma {:induction false} RelativeTokensShortest(target: seq<Identifier>, source: seq<Identifier>, tokens: seq<Token>)
    requires Resolve(source, tokens) == Some(target)
    ensures |RelativeTokens(target, source)| <= |tokens|
    decreases |tokens|
  {
    CommonUnique(source, target, CommonPrefix(target, source));
    if tokens == [] {
      CommonUnique(target, target, |target|);
    } else {
      var next := if tokens[0] == Super then source[..|source| - 1] else source + [tokens[0].segment];
      RelativeTokensShortest(target, next, tokens[1..]);
      CommonUnique(next, target, CommonPrefix(target, next));
      if tokens[0] == Super {
        UpIsOne(source, target);
      } else {
        DownIsOne(source, tokens[0].segment, target);
      }
    }
  }

  /** A root type is as many levels up as the namespace is deep. */
  lemma RootTypeResolves(source: seq<Identifier>)
    ensures Resolve(source, Supers(|source|)) == Some([])
  {
    SupersResolve(source, |source|, []);
    assert Supers(|source|) + [] == Supers(|source|);
  }

  // ---- Namespaces with events -----------------------------------------------

  /** The namespaces below `ns` that hold entities, directly or further down. */
  function Descendants(ns: Namespace): seq<Namespace>
    decreases ns, 1
  {
    DescendantsOf(ns.children)
  }

  function DescendantsOf(children: seq<Namespace>): seq<Namespace>
    decreases children, 0
  {
    if children == [] then [] else ListedWith(children[0]) + DescendantsOf(children[1..])
  }

  /** A child that holds entities is listed, followed by those below it. */
  function ListedWith(c: Namespace): seq<Namespace>
    decreases c, 2
  {
    if HasEntities(c) then [c] + Descendants(c) else []
  }

  method CollectDescendants(ns: Namespace) returns (descendants: seq<Namespace>)
    ensures descendants == Descendants(ns)
    decreases ns
  {
    descendants := [];
    for i := 0 to |ns.children|
      invariant descendants == DescendantsOf(ns.children[..i])
    {
      var c := ns.children[i];
      assert ns.children[..i + 1] == ns.children[..i] + [c];
      DescendantsSnoc(ns.children[..i], c);
      if HasEntities(c) {
        var more := CollectDescendants(c);
        descendants := descendants + [c] + more;
      }
    }
    assert ns.children[..|ns.children|] == ns.children;
  }

  lemma {:induction false} DescendantsConcat(a: seq<Namespace>, b: seq<Namespace>)
    ensures DescendantsOf(a + b) == DescendantsOf(a) + DescendantsOf(b)
  {
    if a == [] {
      assert a + b == b;
    } else {
      assert (a + b)[1..] == a[1..] + b;
      DescendantsConcat(a[1..], b);
      Associates(ListedWith(a[0]), DescendantsOf(a[1..]), DescendantsOf(b));
    }
  }

  lemma DescendantsSnoc(children: seq<Namespace>, c: Namespace)
    ensures DescendantsOf(children + [c]) ==
            DescendantsOf(children) + if HasEntities(c) then [c] + Descendants(c) else []
  {
    DescendantsConcat(children, [c]);
    assert DescendantsOf([c][1..]) == [];
  }

  /** What each child lists comes in turn: the child itself first, if it holds entities. */
  lemma DescendantsLaidOut(ns: Namespace, k: nat)
    requires k < |ns.children|
    ensures var c := ns.children[k];
            Descendants(ns) == DescendantsOf(ns.children[..k]) + (if HasEntities(c) then [c] + Descendants(c) else [])
                               + DescendantsOf(ns.children[k + 1..])
    ensures DescendantsOf([]) == []
  {
    var before, c, after := ns.children[..k], ns.children[k], ns.children[k + 1..];
    assert ns.children == before + [c] + after;
    DescendantsConcat(before + [c], after);
    DescendantsSnoc(before, c);
  }

  lemma {:induction false} DescendantsBelow(ns: Namespace, d: Namespace)
    requires WellShaped(ns) && d in Descendants(ns)
    ensures ns.path < d.path && WellShaped(d) && HasEntities(d)
    decreases ns, 1
  {
    DescendantsBelowOf(ns.children, ns.path, d);
  }

  lemma {:induction false} DescendantsBelowOf(children: seq<Namespace>, path: seq<Identifier>, d: Namespace)
    requires forall c | c in children :: path < c.path && WellShaped(c)
    requires d in DescendantsOf(children)
    ensures path < d.path && WellShaped(d) && HasEntities(d)
    ensures exists c :: c in children && c.path <= d.path
    decreases children, 0
  {
    var c := children[0];
    assert c in children;
    if HasEntities(c) && d == c {
    } else if HasEntities(c) && d in Descendants(c) {
      DescendantsBelow(c, d);
    } else {
      DescendantsBelowOf(children[1..], path, d);
    }
  }

  ghost predicate DistinctPaths(nss: seq<Namespace>) {
    forall i, j | 0 <= i < j < |nss| :: nss[i].path != nss[j].path
  }

  /** No namespace is listed twice. */
  lemma {:induction false} DescendantsDistinct(ns: Namespace)
    requires WellShaped(ns)
    ensures DistinctPaths(Descendants(ns))
    decreases ns, 1
  {
    DescendantsDistinctOf(ns.children, ns.path);
  }

  lemma {:induction false} DescendantsDistinctOf(children: seq<Namespace>, path: seq<Identifier>)
    requires forall c | c in children :: |c.path| == |path| + 1 && path < c.path && WellShaped(c)
    requires DistinctPaths(children)
    ensures DistinctPaths(DescendantsOf(children))
    decreases children, 0
  {
    if children != [] {
      var c, rest := children[0], DescendantsOf(children[1..]);
      DescendantsDistinctOf(children[1..], path);
      if HasEntities(c) {
        var below := Descendants(c);
        DescendantsDistinct(c);
        forall d | d in below ensures c.path < d.path { DescendantsBelow(c, d); }
        JoinDistinct([c], below);
        forall x, y | x in [c] + below && y in rest ensures x.path != y.path {
          SiblingsApart(children, path, x.path, y);
        }
        JoinDistinct([c] + below, rest);
      }
    }
  }

  /** What lies below the first child does not lie below a later one. */
  lemma SiblingsApart(children: seq<Namespace>, path: seq<Identifier>, x: seq<Identifier>, y: Namespace)
    requires children != [] && DistinctPaths(children)
    requires forall c | c in children :: |c.path| == |path| + 1 && path < c.path && WellShaped(c)
    requires children[0].path <= x && y in DescendantsOf(children[1..])
    ensures x != y.path
  {
    var rest := children[1..];
    DescendantsBelowOf(rest, path, y);
    var k :| 0 <= k < |rest| && rest[k].path <= y.path;
    assert rest[k] == children[k + 1] && children[0] in children;
    PrefixesApart(children[0].path, children[k + 1].path, x, y.path);
  }

  lemma PrefixesApart<T>(a: seq<T>, b: seq<T>, x: seq<T>, y: seq<T>)
    requires |a| == |b| && a != b && a <= x && b <= y
    ensures x != y
  {
    assert a == x[..|a|] && b == y[..|b|];
  }

  lemma JoinDistinct(a: seq<Namespace>, b: seq<Namespace>)
    requires DistinctPaths(a) && DistinctPaths(b) && forall x, y | x in a && y in b :: x.path != y.path
    ensures DistinctPaths(a + b)
  {}

  // ---- Conversions ----------------------------------------------------------

  /** A conversion into a namespace's umbrella: from the type at `source`, into the
      entity's own variant or the variant of the child `via`; `nested` tells that it
      first converts into that child's umbrella. */
  datatype Conversion = Conversion(source: RelativePath, via: Option<Identifier>, nested: bool)

  function OwnConversion(e: Entity): Conversion {
    Conversion(RelativePath([], EntityEvent(e.path.name)), None, false)
  }

  function ChildConversion(segment: Identifier): Conversion {
    Conversion(RelativePath([Module(segment)], UmbrellaEvent), Some(segment), false)
  }

  function EntityConversion(ns: Namespace, segment: Identifier, e: Entity): Conversion {
    Conversion(RelativePath(RelativeTokens(e.path.namespace, ns.path), EntityEvent(e.path.name)), Some(segment), true)
  }

  function DescendantConversion(ns: Namespace, segment: Identifier, d: Namespace): Conversion
    requires |ns.path| <= |d.path|
  {
    Conversion(RelativePath(Modules(d.path[|ns.path|..]), UmbrellaEvent), Some(segment), true)
  }

  /** The type a conversion starts from. */
  function SourceOf(ns: Namespace, c: Conversion): Option<Target> {
    ResolveType(ns.path, c.source)
  }

  /** The types that can be converted into the umbrella of `ns`. */
  function Provided(ns: Namespace): seq<Target> {
    EntityTargets(ns.entities) + ProvidedBy(ns.children)
  }

  function ProvidedBy(children: seq<Namespace>): seq<Target> {
    if children == [] then []
    else (if HasEntities(children[0]) then ProvidedByChild(children[0]) else []) + ProvidedBy(children[1..])
  }

  function ProvidedByChild(c: Namespace): seq<Target> {
    [UmbrellaAt(c.path)] + EntityTargets(AllEntities(c)) + UmbrellaTargets(Descendants(c))
  }

  function EntityTargets(entities: seq<Entity>): seq<Target> {
    seq(|entities|, i requires 0 <= i < |entities| => EntityAt(entities[i].path))
  }

  function UmbrellaTargets(nss: seq<Namespace>): seq<Target> {
    seq(|nss|, i requires 0 <= i < |nss| => UmbrellaAt(nss[i].path))
  }

  /** Each conversion starts from the type it should. */
  ghost predicate Matches(ns: Namespace, conversions: seq<Conversion>, targets: seq<Target>) {
    |conversions| == |targets| && forall i | 0 <= i < |targets| :: SourceOf(ns, conversions[i]) == Some(targets[i])
  }

  /** A conversion is well typed: an entity's own variant takes that entity's event,
      and a child's variant takes the child's umbrella, which a nested conversion
      obtains by a conversion that the child itself provides. */
  ghost predicate Backed(ns: Namespace, c: Conversion) {
    && SourceOf(ns, c).Some?
    && match c.via
       case None => !c.nested && exists e :: e in ns.entities && SourceOf(ns, c).value == EntityAt(e.path)
       case Some(segment) =>
         exists child :: IsVariant(ns, child, segment)
                         && if c.nested then SourceOf(ns, c).value in Provided(child)
                            else SourceOf(ns, c).value == UmbrellaAt(child.path)
  }

  /** The variant for `segment` holds the umbrella of `child`. */
  ghost predicate IsVariant(ns: Namespace, child: Namespace, segment: Identifier) {
    child in ns.children && HasEntities(child) && child.path != [] && LastSegment(child) == segment
  }

  lemma EntityProvided(ns: Namespace, e: Entity)
    requires e in AllEntities(ns)
    ensures EntityAt(e.path) in Provided(ns)
  {
    if e in ns.entities {
      var i :| 0 <= i < |ns.entities| && ns.entities[i] == e;
      assert EntityTargets(ns.entities)[i] == EntityAt(e.path);
    } else {
      EntityProvidedOf(ns.children, e);
    }
  }

  lemma {:induction false} EntityProvidedOf(children: seq<Namespace>, e: Entity)
    requires e in AllEntitiesOf(children)
    ensures EntityAt(e.path) in ProvidedBy(children)
  {
    if e in AllEntities(children[0]) {
      HasEntitiesIff(children[0]);
      var all := AllEntities(children[0]);
      var i :| 0 <= i < |all| && all[i] == e;
      assert EntityTargets(all)[i] == EntityAt(e.path);
      assert EntityAt(e.path) in ProvidedByChild(children[0]);
    } else {
      EntityProvidedOf(children[1..], e);
    }
  }

  lemma {:induction false} DescendantProvided(children: seq<Namespace>, d: Namespace)
    requires d in DescendantsOf(children)
    ensures UmbrellaAt(d.path) in ProvidedBy(children)
  {
    var c := children[0];
    if HasEntities(c) && d in [c] + Descendants(c) {
      if d != c {
        var all := Descendants(c);
        var i :| 0 <= i < |all| && all[i] == d;
        assert UmbrellaTargets(all)[i] == UmbrellaAt(d.path);
      }
      assert UmbrellaAt(d.path) in ProvidedByChild(c);
    } else {
      DescendantProvided(children[1..], d);
    }
  }

  lemma MatchesConcat(ns: Namespace, a: seq<Conversion>, s: seq<Target>, b: seq<Conversion>, t: seq<Target>)
    requires Matches(ns, a, s) && Matches(ns, b, t)
    ensures Matches(ns, a + b, s + t)
  {}

  lemma MatchesSnoc(ns: Namespace, a: seq<Conversion>, targets: seq<Target>, i: nat, c: Conversion)
    requires i < |targets| && Matches(ns, a, targets[..i]) && SourceOf(ns, c) == Some(targets[i])
    ensures Matches(ns, a + [c], targets[..i + 1])
  {}

  /** A child of a well-shaped namespace that has an umbrella. */
  ghost predicate IsSource(ns: Namespace, c: Namespace) {
    c in ns.children && HasEntities(c) && WellShaped(c) && c.path != [] && c.path == ns.path + [LastSegment(c)]
  }

  lemma ChildIsSource(ns: Namespace, c: Namespace)
    requires WellShaped(ns) && c in ns.children && HasEntities(c)
    ensures IsSource(ns, c)
  {}

  lemma ChildConversionSound(ns: Namespace, c: Namespace)
    requires IsSource(ns, c)
    ensures SourceOf(ns, ChildConversion(LastSegment(c))) == Some(UmbrellaAt(c.path))
    ensures Backed(ns, ChildConversion(LastSegment(c)))
  {
    assert IsVariant(ns, c, LastSegment(c));
    ModulesResolve(ns.path, [LastSegment(c)]);
    assert Modules([LastSegment(c)]) == [Module(LastSegment(c))];
  }

  lemma EntityConversionSound(ns: Namespace, c: Namespace, e: Entity)
    requires IsSource(ns, c) && e in AllEntities(c)
    ensures var x := EntityConversion(ns, LastSegment(c), e);
            SourceOf(ns, x) == Some(EntityAt(e.path)) && Backed(ns, x)
  {
    assert IsVariant(ns, c, LastSegment(c));
    RelativeTokensResolve(e.path.namespace, ns.path);
    EntityProvided(c, e);
  }

  lemma DescendantConversionSound(ns: Namespace, c: Namespace, d: Namespace)
    requires IsSource(ns, c) && d in Descendants(c)
    ensures |ns.path| <= |d.path|
    ensures var x := DescendantConversion(ns, LastSegment(c), d);
            SourceOf(ns, x) == Some(UmbrellaAt(d.path)) && Backed(ns, x)
  {
    assert IsVariant(ns, c, LastSegment(c));
    DescendantsBelow(c, d);
    ModulesResolve(ns.path, d.path[|ns.path|..]);
    assert ns.path + d.path[|ns.path|..] == d.path;
    DescendantProvided(c.children, d);
  }

  method EntityConversions(ns: Namespace, c: Namespace) returns (conversions: seq<Conversion>)
    requires IsSource(ns, c)
    ensures Matches(ns, conversions, EntityTargets(AllEntities(c)))
    ensures forall x | x in conversions :: Backed(ns, x)
  {
    conversions := [];
    var entities := CollectEntities(c);
    ghost var targets := EntityTargets(entities);
    for i := 0 to |entities|
      invariant Matches(ns, conversions, targets[..i])
      invariant forall x | x in conversions :: Backed(ns, x)
    {
      EntityConversionSound(ns, c, entities[i]);
      var source := RelativeTypePath(entities[i].path, ns.path);
      MatchesSnoc(ns, conversions, targets, i, Conversion(source, Some(LastSegment(c)), true));
      conversions := conversions + [Conversion(source, Some(LastSegment(c)), true)];
    }
    assert targets[..|entities|] == targets;
  }

  method DescendantConversions(ns: Namespace, c: Namespace) returns (conversions: seq<Conversion>)
    requires IsSource(ns, c)
    ensures Matches(ns, conversions, UmbrellaTargets(Descendants(c)))
    ensures forall x | x in conversions :: Backed(ns, x)
  {
    conversions := [];
    var descendants := CollectDescendants(c);
    ghost var targets := UmbrellaTargets(descendants);
    for i := 0 to |descendants|
      invariant Matches(ns, conversions, targets[..i])
      invariant forall x | x in conversions :: Backed(ns, x)
    {
      DescendantConversionSound(ns, c, descendants[i]);
      var conversion := DescendantConversion(ns, LastSegment(c), descendants[i]);
      MatchesSnoc(ns, conversions, targets, i, conversion);
      conversions := conversions + [conversion];
    }
    assert targets[..|descendants|] == targets;
  }

  /** Generates the conversions of one child of `ns`. */
  method ConversionsOfChild(ns: Namespace, c: Namespace) returns (conversions: seq<Conversion>)
    requires IsSource(ns, c)
    ensures Matches(ns, conversions, ProvidedByChild(c))
    ensures forall x | x in conversions :: Backed(ns, x)
  {
    var entities := EntityConversions(ns, c);
    var descendants := DescendantConversions(ns, c);
    ChildConversionSound(ns, c);
    var own := [ChildConversion(LastSegment(c))];
    MatchesConcat(ns, own, [UmbrellaAt(c.path)], entities, EntityTargets(AllEntities(c)));
    MatchesConcat(ns, own + entities, [UmbrellaAt(c.path)] + EntityTargets(AllEntities(c)),
                  descendants, UmbrellaTargets(Descendants(c)));
    conversions := own + entities + descendants;
  }

  /** Generates every conversion into the umbrella of `ns`: one for each type it
      provides, and each nested one backed by the child it goes through. */
  method GenerateUmbrella(ns: Namespace) returns (conversions: seq<Conversion>)
    requires WellShaped(ns)
    ensures Matches(ns, conversions, Provided(ns))
    ensures forall x | x in conversions :: Backed(ns, x)
  {
    conversions := [];
    ghost var targets := EntityTargets(ns.entities);
    for i := 0 to |ns.entities|
      invariant Matches(ns, conversions, targets[..i])
      invariant forall x | x in conversions :: Backed(ns, x)
    {
      assert ns.entities[i] in ns.entities;
      MatchesSnoc(ns, conversions, targets, i, OwnConversion(ns.entities[i]));
      conversions := conversions + [OwnConversion(ns.entities[i])];
    }
    assert targets[..|ns.entities|] == targets;
    var nested := NestedConversions(ns);
    MatchesConcat(ns, conversions, EntityTargets(ns.entities), nested, ProvidedBy(ns.children));
    conversions := conversions + nested;
  }

  method NestedConversions(ns: Namespace) returns (conversions: seq<Conversion>)
    requires WellShaped(ns)
    ensures Matches(ns, conversions, ProvidedBy(ns.children))
    ensures forall x | x in conversions :: Backed(ns, x)
  {
    conversions := [];
    for i := 0 to |ns.children|
      invariant Matches(ns, conversions, ProvidedBy(ns.children[..i]))
      invariant forall x | x in conversions :: Backed(ns, x)
    {
      var c := ns.children[i];
      ProvidedBySnoc(ns.children[..i], c);
      assert ns.children[..i + 1] == ns.children[..i] + [c];
      if HasEntities(c) {
        ChildIsSource(ns, c);
        var more := ConversionsOfChild(ns, c);
        MatchesConcat(ns, conversions, ProvidedBy(ns.children[..i]), more, ProvidedByChild(c));
        conversions := conversions + more;
      }
    }
    assert ns.children[..|ns.children|] == ns.children;
  }

  lemma {:induction false} ProvidedByConcat(a: seq<Namespace>, b: seq<Namespace>)
    ensures ProvidedBy(a + b) == ProvidedBy(a) + ProvidedBy(b)
  {
    if a == [] {
      assert a + b == b;
    } else {
      assert (a + b)[1..] == a[1..] + b;
      ProvidedByConcat(a[1..], b);
      Associates(if HasEntities(a[0]) then ProvidedByChild(a[0]) else [], ProvidedBy(a[1..]), ProvidedBy(b));
    }
  }

  lemma ProvidedBySnoc(children: seq<Namespace>, c: Namespace)
    ensures ProvidedBy(children + [c]) == ProvidedBy(children) + if HasEntities(c) then ProvidedByChild(c) else []
  {
    ProvidedByConcat(children, [c]);
    assert ProvidedBy([c][1..]) == [];
  }

  // ---- Exactly one conversion per type --------------------------------------

  ghost function Times(targets: seq<Target>, t: Target): nat {
    multiset(targets)[t]
  }

  lemma TimesConcat(a: seq<Target>, b: seq<Target>, t: Target)
    ensures Times(a + b, t) == Times(a, t) + Times(b, t)
  {}

  lemma EntityTargetsConcat(a: seq<Entity>, b: seq<Entity>)
    ensures EntityTargets(a + b) == EntityTargets(a) + EntityTargets(b)
  {}

  lemma UmbrellaTargetsConcat(a: seq<Namespace>, b: seq<Namespace>)
    ensures UmbrellaTargets(a + b) == UmbrellaTargets(a) + UmbrellaTargets(b)
  {}

  lemma {:induction false} ProvidedByTimes(children: seq<Namespace>, t: Target)
    ensures Times(ProvidedBy(children), t)
         == Times(EntityTargets(AllEntitiesOf(children)), t) + Times(UmbrellaTargets(DescendantsOf(children)), t)
  {
    if children != [] {
      var c, rest := children[0], children[1..];
      ProvidedByTimes(rest, t);
      EntityTargetsConcat(AllEntities(c), AllEntitiesOf(rest));
      TimesConcat(EntityTargets(AllEntities(c)), EntityTargets(AllEntitiesOf(rest)), t);
      HasEntitiesIff(c);
      if HasEntities(c) {
        TimesConcat(ProvidedByChild(c), ProvidedBy(rest), t);
        TimesConcat([UmbrellaAt(c.path)] + EntityTargets(AllEntities(c)), UmbrellaTargets(Descendants(c)), t);
        TimesConcat([UmbrellaAt(c.path)], EntityTargets(AllEntities(c)), t);
        UmbrellaTargetsConcat([c] + Descendants(c), DescendantsOf(rest));
        TimesConcat(UmbrellaTargets([c] + Descendants(c)), UmbrellaTargets(DescendantsOf(rest)), t);
        UmbrellaTargetsConcat([c], Descendants(c));
        TimesConcat(UmbrellaTargets([c]), UmbrellaTargets(Descendants(c)), t);
        assert UmbrellaTargets([c]) == [UmbrellaAt(c.path)];
      } else {
        assert DescendantsOf(children) == DescendantsOf(rest);
        assert ProvidedBy(children) == ProvidedBy(rest);
      }
    }
  }

  /** The umbrella of `ns` provides, exactly once each, the event of every entity in
      or below it and the umbrella of every namespace below it that has entities. */
  lemma ProvidesEachOnce(ns: Namespace, t: Target)
    ensures Times(Provided(ns), t)
         == Times(EntityTargets(AllEntities(ns)), t) + Times(UmbrellaTargets(Descendants(ns)), t)
  {
    TimesConcat(EntityTargets(ns.entities), ProvidedBy(ns.children), t);
    ProvidedByTimes(ns.children, t);
    EntityTargetsConcat(ns.entities, AllEntitiesOf(ns.children));
    TimesConcat(EntityTargets(ns.entities), EntityTargets(AllEntitiesOf(ns.children)), t);
  }

  ghost predicate DistinctTargets(targets: seq<Target>) {
    forall i, j | 0 <= i < j < |targets| :: targets[i] != targets[j]
  }

  lemma DistinctTargetOnce(targets: seq<Target>, t: Target)
    requires DistinctTargets(targets)
    ensures Times(targets, t) == if t in targets then 1 else 0
  {
    if t in targets {
      var i :| 0 <= i < |targets| && targets[i] == t;
      assert targets == targets[..i] + [t] + targets[i + 1..];
      assert t !in targets[..i] && t !in targets[i + 1..];
      TimesConcat(targets[..i] + [t], targets[i + 1..], t);
      TimesConcat(targets[..i], [t], t);
    }
  }

  ghost predicate DistinctEntities(entities: seq<Entity>) {
    forall i, j | 0 <= i < j < |entities| :: entities[i].path != entities[j].path
  }

  /** In a layout of distinct entities every type is converted into an umbrella at
      most once, and exactly those of its entities and descendants are. */
  lemma ConvertedOnce(ns: Namespace, t: Target)
    requires WellShaped(ns) && DistinctEntities(AllEntities(ns))
    ensures Times(Provided(ns), t) ==
            if (exists e :: e in AllEntities(ns) && t == EntityAt(e.path))
            || (exists d :: d in Descendants(ns) && t == UmbrellaAt(d.path)) then 1 else 0
  {
    var es, ds := EntityTargets(AllEntities(ns)), UmbrellaTargets(Descendants(ns));
    ProvidesEachOnce(ns, t);
    DescendantsDistinct(ns);
    DistinctTargetOnce(es, t);
    DistinctTargetOnce(ds, t);
    EntityTargetsHold(AllEntities(ns), t);
    UmbrellaTargetsHold(Descendants(ns), t);
  }

  lemma EntityTargetsHold(entities: seq<Entity>, t: Target)
    ensures t in EntityTargets(entities) <==> exists e :: e in entities && t == EntityAt(e.path)
  {
    if e :| e in entities && t == EntityAt(e.path) {
      var i :| 0 <= i < |entities| && entities[i] == e;
      assert EntityTargets(entities)[i] == t;
    }
  }

  lemma UmbrellaTargetsHold(nss: seq<Namespace>, t: Target)
    ensures t in UmbrellaTargets(nss) <==> exists d :: d in nss && t == UmbrellaAt(d.path)
  {
    if d :| d in nss && t == UmbrellaAt(d.path) {
      var i :| 0 <= i < |nss| && nss[i] == d;
      assert UmbrellaTargets(nss)[i] == t;
    }
  }

  lemma EntityOnce(entities: seq<Entity>, e: Entity)
    requires DistinctEntities(entities)
    ensures multiset(entities)[e] <= 1
  {
    if e in entities {
      var k :| 0 <= k < |entities| && entities[k] == e;
      assert entities == entities[..k] + [e] + entities[k + 1..];
      assert e !in entities[..k] && e !in entities[k + 1..];
    }
  }

  lemma RepeatedEntity(entities: seq<Entity>, i: nat, j: nat)
    requires i < j < |entities| && entities[i] == entities[j]
    ensures multiset(entities)[entities[i]] >= 2
  {
    var e := entities[i];
    assert entities == entities[..i] + [e] + entities[i + 1..j] + [e] + entities[j + 1..];
  }

  /** The layout of a schema holds its entities without duplicates. */
  lemma LayoutDistinct(entities: seq<Entity>, all: seq<Entity>)
    requires DistinctEntities(entities) && multiset(all) == multiset(entities)
    ensures DistinctEntities(all)
  {
    forall i, j | 0 <= i < j < |all| ensures all[i].path != all[j].path {
      assert all[i] in multiset(all) && all[j] in multiset(all);
      assert all[i] in entities && all[j] in entities;
      EntityOnce(entities, all[i]);
      if all[i] == all[j] {
        RepeatedEntity(all, i, j);
      }
    }
  }

  lemma {:induction false} DescendantSlice(ns: Namespace, d: Namespace) returns (pre: seq<Entity>, post: seq<Entity>)
    requires d in Descendants(ns)
    ensures AllEntities(ns) == pre + AllEntities(d) + post
    decreases ns, 1
  {
    var inner;
    inner, post := DescendantSliceOf(ns.children, d);
    pre := ns.entities + inner;
    FourJoin(ns.entities, inner, AllEntities(d), post);
  }

  lemma {:induction false} DescendantSliceOf(children: seq<Namespace>, d: Namespace)
    returns (pre: seq<Entity>, post: seq<Entity>)
    requires d in DescendantsOf(children)
    ensures AllEntitiesOf(children) == pre + AllEntities(d) + post
    decreases children, 0
  {
    var c, rest := children[0], children[1..];
    if HasEntities(c) && d == c {
      pre, post := [], AllEntitiesOf(rest);
    } else if HasEntities(c) && d in Descendants(c) {
      var inner;
      pre, inner := DescendantSlice(c, d);
      post := inner + AllEntitiesOf(rest);
      FourJoin(pre, AllEntities(d), inner, AllEntitiesOf(rest));
    } else {
      var inner;
      inner, post := DescendantSliceOf(rest, d);
      pre := AllEntities(c) + inner;
      FourJoin(AllEntities(c), inner, AllEntities(d), post);
    }
  }

  lemma FourJoin<T>(a: seq<T>, b: seq<T>, c: seq<T>, d: seq<T>)
    ensures (a + b + c) + d == a + b + (c + d) && a + (b + c + d) == (a + b) + c + d
  {}

  lemma SliceDistinct(pre: seq<Entity>, entities: seq<Entity>, post: seq<Entity>)
    requires DistinctEntities(pre + entities + post)
    ensures DistinctEntities(entities)
  {
    var all := pre + entities + post;
    forall i, j | 0 <= i < j < |entities| ensures entities[i].path != entities[j].path {
      assert entities[i] == all[|pre| + i] && entities[j] == all[|pre| + j];
    }
  }

  // ---- In terms of the schema -----------------------------------------------

  lemma {:induction false} InSomeChild(children: seq<Namespace>, e: Entity) returns (c: Namespace)
    requires e in AllEntitiesOf(children)
    ensures c in children && e in AllEntities(c)
  {
    c := children[0];
    if e !in AllEntities(c) {
      c := InSomeChild(children[1..], e);
    }
  }

  lemma {:induction false} ListedBySome(children: seq<Namespace>, d: Namespace) returns (c: Namespace)
    requires d in DescendantsOf(children)
    ensures c in children && HasEntities(c) && (d == c || d in Descendants(c))
  {
    c := children[0];
    if !(HasEntities(c) && d in [c] + Descendants(c)) {
      c := ListedBySome(children[1..], d);
    }
  }

  lemma {:induction false} ListsAll(children: seq<Namespace>, c: Namespace, d: Namespace)
    requires c in children && HasEntities(c) && (d == c || d in Descendants(c))
    ensures d in DescendantsOf(children)
  {
    if c != children[0] {
      ListsAll(children[1..], c, d);
    }
  }

  /** The entities in and below a namespace are declared in or below it. */
  lemma {:induction false} EntityBelow(ns: Namespace, e: Entity)
    requires WellShaped(ns) && e in AllEntities(ns)
    ensures ns.path <= e.path.namespace
    decreases ns
  {
    if e !in ns.entities {
      var c := InSomeChild(ns.children, e);
      EntityBelow(c, e);
    }
  }

  /** Siblings on the way to the same namespace are one. */
  lemma SameChild(ns: Namespace, c: Namespace, d: Namespace, path: seq<Identifier>)
    requires WellShaped(ns) && c in ns.children && d in ns.children && c.path <= path && d.path <= path
    ensures c == d
  {
    assert c.path == path[..|c.path|] && d.path == path[..|d.path|];
    var i :| 0 <= i < |ns.children| && ns.children[i] == c;
    var j :| 0 <= j < |ns.children| && ns.children[j] == d;
  }

  /** An entity declared in or below a namespace that is listed is found there. */
  lemma {:induction false} EntityFound(ns: Namespace, d: Namespace, e: Entity)
    requires WellShaped(ns) && (d == ns || d in Descendants(ns))
    requires e in AllEntities(ns) && d.path <= e.path.namespace
    ensures e in AllEntities(d)
    decreases ns
  {
    if d != ns {
      DescendantsBelow(ns, d);
      var c := InSomeChild(ns.children, e);
      var x := ListedBySome(ns.children, d);
      EntityBelow(c, e);
      if d != x { DescendantsBelow(x, d); }
      SameChild(ns, c, x, e.path.namespace);
      EntityFound(c, d, e);
    }
  }

  /** Every namespace on the way to an entity is listed. */
  lemma {:induction false} NamespaceListed(ns: Namespace, path: seq<Identifier>, e: Entity) returns (d: Namespace)
    requires WellShaped(ns) && e in AllEntities(ns) && ns.path < path <= e.path.namespace
    ensures d in Descendants(ns) && d.path == path
    decreases ns
  {
    var c := InSomeChild(ns.children, e);
    EntityBelow(c, e);
    HasEntitiesIff(c);
    assert c.path == e.path.namespace[..|c.path|] == path[..|c.path|];
    d := c;
    if c.path != path {
      d := NamespaceListed(c, path, e);
    }
    ListsAll(ns.children, c, d);
  }

  /** Some entity of the schema is declared in or below the namespace. */
  ghost predicate LeadsToEntity(schema: Schema, path: seq<Identifier>) {
    exists e :: e in schema.entities && path <= e.path.namespace
  }

  /** What an umbrella should take: the event of every entity declared in or below its
      namespace, and the umbrella of every namespace below that leads to an entity. */
  ghost predicate ShouldTake(schema: Schema, path: seq<Identifier>, t: Target) {
    match t
    case EntityAt(p) => path <= p.namespace && exists e :: e in schema.entities && e.path == p
    case UmbrellaAt(below) => path < below && LeadsToEntity(schema, below)
  }

  ghost predicate IsLayout(schema: Schema, root: Namespace) {
    WellShaped(root) && root.path == [] && multiset(AllEntities(root)) == multiset(schema.entities)
  }

  lemma InLayout(schema: Schema, root: Namespace, e: Entity)
    requires IsLayout(schema, root)
    ensures e in AllEntities(root) <==> e in schema.entities
  {
    assert e in multiset(AllEntities(root)) <==> e in multiset(schema.entities);
  }

  lemma EntitiesOfUmbrella(schema: Schema, root: Namespace, ns: Namespace, p: Path)
    requires IsLayout(schema, root) && (ns == root || ns in Descendants(root))
    ensures (exists e :: e in AllEntities(ns) && EntityAt(p) == EntityAt(e.path)) <==>
            ShouldTake(schema, ns.path, EntityAt(p))
  {
    if e :| e in AllEntities(ns) && e.path == p {
      if ns != root { DescendantsBelow(root, ns); }
      EntityBelow(ns, e);
      if ns != root {
        var pre, post := DescendantSlice(root, ns);
      }
      InLayout(schema, root, e);
    }
    if ShouldTake(schema, ns.path, EntityAt(p)) {
      var e :| e in schema.entities && e.path == p;
      InLayout(schema, root, e);
      EntityFound(root, ns, e);
    }
  }

  lemma UmbrellasOfUmbrella(schema: Schema, root: Namespace, ns: Namespace, below: seq<Identifier>)
    requires IsLayout(schema, root) && (ns == root || ns in Descendants(root))
    ensures (exists d :: d in Descendants(ns) && UmbrellaAt(below) == UmbrellaAt(d.path)) <==>
            ShouldTake(schema, ns.path, UmbrellaAt(below))
  {
    if ns != root { DescendantsBelow(root, ns); }
    if d :| d in Descendants(ns) && d.path == below {
      DescendantsBelow(ns, d);
      HasEntitiesIff(d);
      var e := AllEntities(d)[0];
      EntityBelow(d, e);
      var pre, post := DescendantSlice(ns, d);
      assert e in AllEntities(ns);
      if ns != root {
        var front, back := DescendantSlice(root, ns);
      }
      InLayout(schema, root, e);
    }
    if ShouldTake(schema, ns.path, UmbrellaAt(below)) {
      var e :| e in schema.entities && below <= e.path.namespace;
      InLayout(schema, root, e);
      EntityFound(root, ns, e);
      var d := NamespaceListed(ns, below, e);
    }
  }

  /** A namespace other than the root has an umbrella exactly if an entity is declared
      in or below it. */
  lemma UmbrellaGenerated(schema: Schema, root: Namespace, path: seq<Identifier>)
    requires IsLayout(schema, root) && path != []
    ensures (exists d :: d in Descendants(root) && d.path == path) <==> LeadsToEntity(schema, path)
  {
    UmbrellasOfUmbrella(schema, root, root, path);
    if d :| d in Descendants(root) && d.path == path {
      assert UmbrellaAt(path) == UmbrellaAt(d.path);
    }
  }

  /** In the layout of a schema, every umbrella that is generated converts from each
      type it should exactly once, and from nothing else. */
  lemma EveryUmbrellaConvertsOnce(schema: Schema, root: Namespace, ns: Namespace, t: Target)
    requires WellFormed(schema) && IsLayout(schema, root)
    requires ns == root || ns in Descendants(root)
    ensures WellShaped(ns)
    ensures Times(Provided(ns), t) == if ShouldTake(schema, ns.path, t) then 1 else 0
  {
    LayoutDistinct(schema.entities, AllEntities(root));
    if ns != root {
      DescendantsBelow(root, ns);
      var pre, post := DescendantSlice(root, ns);
      SliceDistinct(pre, AllEntities(ns), post);
    }
    ConvertedOnce(ns, t);
    match t {
      case EntityAt(p) => EntitiesOfUmbrella(schema, root, ns, p);
      case UmbrellaAt(below) => UmbrellasOfUmbrella(schema, root, ns, below);
    }
  }
}
