/**
 Where growth alone decides whether the type walk ends: environments in which no cycle of
 references passes both an indexed access and a member or array hop, and no interface with
 heritage answers a key that an indexed access asks for. There the growth bound is necessary as
 well as sufficient.
 */
module TypeGrowth {
  import opened Outcomes
  import opened TypeLookup
  import opened TypeTermination

  /** No interface with heritage writes a property signature of this name. */
  predicate Unanswered(w: World, name: string) {
    forall id :: id in w.decls && w.decls[id].Interface? && w.decls[id].bases != [] ==>
      forall m :: m in w.decls[id].elements && m.Property? ==> m.text != name
  }

  /** Every key that indexed access asks for in `t` is unanswered. */
  predicate KeysUnanswered(w: World, t: Type) {
    match t
    case Literal(elements) => forall m :: m in elements && m.Property? && m.typ.Some? ==> KeysUnanswered(w, m.typ.value)
    case Parenthesized(inner) => KeysUnanswered(w, inner)
    case Intersection(parts) => forall p :: p in parts ==> KeysUnanswered(w, p)
    case Union(branches) => forall b :: b in branches ==> KeysUnanswered(w, b)
    case ArrayOf(element) => KeysUnanswered(w, element)
    case Operator(_, operand) => KeysUnanswered(w, operand)
    case Indexed(target, key) => key.Some? ==> Unanswered(w, key.value) && KeysUnanswered(w, target)
    case Reference(_, _, arguments) => forall a :: a in arguments ==> KeysUnanswered(w, a)
    case OtherType => true
  }

  /** The types written in a declaration: those of its properties, or the one it names. */
  predicate Writes(d: Declaration, t: Type) {
    match d
    case Interface(elements, _) => exists m :: m in elements && m.Property? && m.typ == Some(t)
    case Alias(typ) => t == typ
    case Enum => false
  }

  ghost predicate KeysUnansweredIn(w: World) {
    forall id, t :: id in w.decls && Writes(w.decls[id], t) ==> KeysUnanswered(w, t)
  }

  type Rank = DeclId -> nat

  /** References in `t` lead to no higher rank, and to a lower one behind a member or an array hop. */
  predicate Descends(w: World, rank: Rank, file: string, t: Type, from: nat, down: bool, hop: bool) {
    match t
    case Literal(elements) =>
      forall m :: m in elements && m.Property? && m.typ.Some? ==> Descends(w, rank, file, m.typ.value, from, hop, hop)
    case Parenthesized(inner) => Descends(w, rank, file, inner, from, down, hop)
    case Intersection(parts) => forall p :: p in parts ==> Descends(w, rank, file, p, from, down, hop)
    case Union(branches) => forall b :: b in branches ==> Descends(w, rank, file, b, from, down, hop)
    case ArrayOf(element) => Descends(w, rank, file, element, from, hop, hop)
    case Operator(_, operand) => Descends(w, rank, file, operand, from, down, hop)
    case Indexed(target, key) => key.Some? ==> Descends(w, rank, file, target, from, down, hop)
    case Reference(head, qualified, arguments) =>
      if Passthrough(head) && arguments != [] then Descends(w, rank, file, arguments[0], from, down, hop)
      else if ArrayName(head) && arguments != [] then Descends(w, rank, file, arguments[0], from, hop, hop)
      else
        !qualified && Resolve(w, file, head).Some? ==>
          var to := rank(Resolve(w, file, head).value);
          if down then to < from else to <= from
    case OtherType => true
  }

  /** The declaration asks for no member by indexed access. */
  ghost predicate Quiet(w: World, id: DeclId) {
    forall t :: id in w.decls && Writes(w.decls[id], t) ==> NoIndexedAccess(t)
  }

  ghost predicate QuietRank(w: World, rank: Rank, r: nat) {
    forall id :: id in w.decls && rank(id) == r ==> Quiet(w, id)
  }

  /**
   No cycle of references passes both a hop and an indexed access: along references ranks never
   rise, and at hops they fall, except among declarations of a rank without indexed access.
   */
  ghost predicate HopsDescend(w: World, rank: Rank) {
    forall id :: id in w.decls ==> DeclDescends(w, rank, id, !QuietRank(w, rank, rank(id)))
  }

  predicate DeclDescends(w: World, rank: Rank, id: DeclId, hop: bool)
    requires id in w.decls
  {
    match w.decls[id]
    case Interface(elements, bases) =>
      && Descends(w, rank, id.file, Literal(elements), rank(id), false, hop)
      && forall b :: b in bases && b.NamedBase? && Resolve(w, id.file, b.name).Some? ==>
           rank(Resolve(w, id.file, b.name).value) <= rank(id)
    case Alias(typ) => Descends(w, rank, id.file, typ, rank(id), false, hop)
    case Enum => true
  }

  // ---------------------------------------------------------------- which declarations call which

  /** Walking `t` enters declaration `id` with a path longer by `growth`. */
  predicate TypeCalls(w: World, file: string, t: Type, id: DeclId, growth: nat) {
    match t
    case Parenthesized(inner) => TypeCalls(w, file, inner, id, growth)
    case Intersection(parts) => exists p :: p in parts && TypeCalls(w, file, p, id, growth)
    case Union(branches) => exists b :: b in branches && TypeCalls(w, file, b, id, growth)
    case Operator(_, operand) => TypeCalls(w, file, operand, id, growth)
    case Indexed(target, key) => key.Some? && growth > 0 && TypeCalls(w, file, target, id, growth - 1)
    case Reference(head, qualified, arguments) =>
      if Passthrough(head) && arguments != [] then TypeCalls(w, file, arguments[0], id, growth)
      else if ArrayName(head) && arguments != [] then false
      else !qualified && growth == 0 && Resolve(w, file, head) == Some(id)
    case _ => false
  }

  predicate BaseCalls(w: World, file: string, b: Base, id: DeclId) {
    b.NamedBase? && Resolve(w, file, b.name) == Some(id)
  }

  predicate DeclCalls(w: World, from: DeclId, id: DeclId, growth: nat)
    requires from in w.decls
  {
    match w.decls[from]
    case Interface(_, bases) => growth == 0 && exists b :: b in bases && BaseCalls(w, from.file, b, id)
    case Alias(typ) => TypeCalls(w, from.file, typ, id, growth)
    case Enum => false
  }

  lemma {:induction false} CallsKnown(w: World, file: string, t: Type, id: DeclId, growth: nat)
    requires TypeCalls(w, file, t, id, growth)
    ensures id in w.decls
  {
    match t
    case Parenthesized(inner) => CallsKnown(w, file, inner, id, growth);
    case Intersection(parts) =>
      var p :| p in parts && TypeCalls(w, file, p, id, growth);
      CallsKnown(w, file, p, id, growth);
    case Union(branches) =>
      var b :| b in branches && TypeCalls(w, file, b, id, growth);
      CallsKnown(w, file, b, id, growth);
    case Operator(_, operand) => CallsKnown(w, file, operand, id, growth);
    case Indexed(target, _) => CallsKnown(w, file, target, id, growth - 1);
    case Reference(head, _, arguments) =>
      if Passthrough(head) && arguments != [] {
        CallsKnown(w, file, arguments[0], id, growth);
      }
  }

  // ---------------------------------------------------------------- what a walk records

  /** An enum is answered without a record. */
  predicate Entered(w: World, record: Seen, id: DeclId, length: nat) {
    id in w.decls && (w.decls[id].Enum? || (id, length) in record)
  }

  /** Everything that the declaration calls with a path of this length is recorded. */
  ghost predicate ClosedAt(w: World, record: Seen, from: DeclId, length: nat) {
    from in w.decls ==>
      forall id, growth: nat :: DeclCalls(w, from, id, growth) ==> Entered(w, record, id, length + growth)
  }

  /** What was added to the record is closed in it. */
  ghost predicate AddedClosed(w: World, before: Seen, record: Seen) {
    before <= record && forall id, l :: (id, l) in record && (id, l) !in before ==> ClosedAt(w, record, id, l)
  }

  ghost predicate TypeEntered(w: World, record: Seen, file: string, t: Type, length: nat) {
    forall id, growth: nat :: TypeCalls(w, file, t, id, growth) ==> Entered(w, record, id, length + growth)
  }

  lemma AddedTwice(w: World, x: Seen, y: Seen, z: Seen)
    requires AddedClosed(w, x, y) && AddedClosed(w, y, z)
    ensures AddedClosed(w, x, z)
  {
    forall id, l | (id, l) in z && (id, l) !in x ensures ClosedAt(w, z, id, l) {
      if (id, l) in y {
        assert ClosedAt(w, y, id, l);
      }
    }
  }

  /** A path of members that no interface with heritage answers from its own. */
  predicate Growing(w: World, steps: seq<Step>) {
    steps != [] && forall i :: 0 <= i < |steps| ==> steps[i].Member? && Unanswered(w, steps[i].name)
  }

  // ---------------------------------------------------------------- the record is closed

  /** An ended walk recorded its declaration, and everything that what it added calls. */
  lemma {:induction false} DeclCloses(w: World, id: DeclId, steps: seq<Step>, seen: Seen, fuel: nat)
    requires KeysUnansweredIn(w) && id in w.decls && Growing(w, steps)
    ensures var walk := LookupDecl(w, id, steps, seen, fuel);
            walk.Done? ==> AddedClosed(w, seen, walk.seen) && Entered(w, walk.seen, id, |steps|)
    decreases fuel, 1, 0
  {
    var walk := LookupDecl(w, id, steps, seen, fuel);
    if walk.Done? && !w.decls[id].Enum? && (id, |steps|) !in seen {
      var entered := seen + {(id, |steps|)};
      match w.decls[id]
      case Interface(elements, bases) =>
        FindPropertyIn(elements, steps[0].name);
        var direct := FindProperty(elements, steps[0].name);
        if direct.Some? {
          assert direct.value.typ.Some? ==> Writes(w.decls[id], direct.value.typ.value);
          PropertyCloses(w, id.file, direct.value, steps, entered, fuel - 1);
        } else if bases != [] {
          BasesClose(w, id.file, bases, steps, entered, fuel - 1);
        }
        InterfaceClosed(w, id, |steps|, seen, walk.seen);
      case Alias(typ) =>
        assert Writes(w.decls[id], typ);
        TypeCloses(w, id.file, typ, steps, entered, fuel - 1);
        AliasClosed(w, id, |steps|, seen, walk.seen);
    }
  }

  lemma InterfaceClosed(w: World, id: DeclId, length: nat, seen: Seen, record: Seen)
    requires id in w.decls && w.decls[id].Interface? && AddedClosed(w, seen + {(id, length)}, record)
    requires forall b, d :: b in w.decls[id].bases && BaseCalls(w, id.file, b, d) ==> Entered(w, record, d, length)
    ensures AddedClosed(w, seen, record)
  {
    assert ClosedAt(w, record, id, length);
  }

  lemma AliasClosed(w: World, id: DeclId, length: nat, seen: Seen, record: Seen)
    requires id in w.decls && w.decls[id].Alias? && AddedClosed(w, seen + {(id, length)}, record)
    requires TypeEntered(w, record, id.file, w.decls[id].typ, length)
    ensures AddedClosed(w, seen, record)
  {
    assert ClosedAt(w, record, id, length);
  }

  lemma {:induction false} PropertyCloses(
    w: World, file: string, m: TypeElement, steps: seq<Step>, seen: Seen, fuel: nat)
    requires KeysUnansweredIn(w) && Growing(w, steps)
    requires m.Property? && (m.typ.Some? ==> KeysUnanswered(w, m.typ.value))
    ensures var walk := IntoProperty(w, file, m, steps, seen, fuel); walk.Done? ==> AddedClosed(w, seen, walk.seen)
    decreases fuel, 2, 0
  {
    if |steps| > 1 && m.typ.Some? {
      TypeCloses(w, file, m.typ.value, steps[1..], seen, fuel);
    }
  }

  lemma {:induction false} BasesClose(w: World, file: string, bases: seq<Base>, steps: seq<Step>, seen: Seen, fuel: nat)
    requires KeysUnansweredIn(w) && Growing(w, steps)
    ensures var walks := LookupBases(w, file, bases, steps, seen, fuel);
            walks.AllDone? ==>
              && AddedClosed(w, seen, walks.seen)
              && forall b, d :: b in bases && BaseCalls(w, file, b, d) ==> Entered(w, walks.seen, d, |steps|)
    decreases fuel, 2, |bases|
  {
    if bases != [] && LookupBases(w, file, bases, steps, seen, fuel).AllDone? {
      var n := |bases| - 1;
      BasesClose(w, file, bases[..n], steps, seen, fuel);
      var front := LookupBases(w, file, bases[..n], steps, seen, fuel);
      assert forall b :: b in bases ==> b in bases[..n] || b == bases[n];
      if bases[n].NamedBase? && Resolve(w, file, bases[n].name).Some? {
        var d := Resolve(w, file, bases[n].name).value;
        DeclCloses(w, d, steps, front.seen, fuel);
        AddedTwice(w, seen, front.seen, LookupDecl(w, d, steps, front.seen, fuel).seen);
      }
    }
  }

  lemma {:induction false} TypesClose(w: World, file: string, ts: seq<Type>, steps: seq<Step>, seen: Seen, fuel: nat)
    requires KeysUnansweredIn(w) && Growing(w, steps) && forall t :: t in ts ==> KeysUnanswered(w, t)
    ensures var walks := LookupTypes(w, file, ts, steps, seen, fuel);
            walks.AllDone? ==>
              && AddedClosed(w, seen, walks.seen)
              && forall t :: t in ts ==> TypeEntered(w, walks.seen, file, t, |steps|)
    decreases fuel, 2, |ts|
  {
    if ts != [] && LookupTypes(w, file, ts, steps, seen, fuel).AllDone? {
      var n := |ts| - 1;
      TypesClose(w, file, ts[..n], steps, seen, fuel);
      var front := LookupTypes(w, file, ts[..n], steps, seen, fuel);
      TypeCloses(w, file, ts[n], steps, front.seen, fuel);
      AddedTwice(w, seen, front.seen, LookupType(w, file, ts[n], steps, front.seen, fuel).seen);
      assert forall t :: t in ts ==> t in ts[..n] || t == ts[n];
    }
  }

  lemma {:induction false} TypeCloses(w: World, file: string, t: Type, steps: seq<Step>, seen: Seen, fuel: nat)
    requires KeysUnansweredIn(w) && Growing(w, steps) && KeysUnanswered(w, t)
    ensures var walk := LookupType(w, file, t, steps, seen, fuel);
            walk.Done? ==> AddedClosed(w, seen, walk.seen) && TypeEntered(w, walk.seen, file, t, |steps|)
    decreases fuel, 1, 0
  {
    if LookupType(w, file, t, steps, seen, fuel).Done? {
      match t
      case Literal(elements) =>
        FindPropertyIn(elements, steps[0].name);
        if FindProperty(elements, steps[0].name).Some? {
          PropertyCloses(w, file, FindProperty(elements, steps[0].name).value, steps, seen, fuel - 1);
        }
      case Parenthesized(inner) => TypeCloses(w, file, inner, steps, seen, fuel - 1);
      case Intersection(parts) => TypesClose(w, file, parts, steps, seen, fuel - 1);
      case Union(branches) => TypesClose(w, file, branches, steps, seen, fuel - 1);
      case ArrayOf(_) =>
      case Operator(_, operand) => TypeCloses(w, file, operand, steps, seen, fuel - 1);
      case Indexed(target, key) =>
        if key.Some? {
          TypeCloses(w, file, target, [Member(key.value)] + steps, seen, fuel - 1);
        }
      case Reference(head, qualified, arguments) =>
        if Passthrough(head) && arguments != [] {
          TypeCloses(w, file, arguments[0], steps, seen, fuel - 1);
        } else if !(ArrayName(head) && arguments != []) && !qualified && Resolve(w, file, head).Some? {
          DeclCloses(w, Resolve(w, file, head).value, steps, seen, fuel - 1);
        }
      case OtherType =>
    }
  }

  // ---------------------------------------------------------------- how much a path grows

  /** A chain of `n` calls, over which the path grows by `growth`. */
  ghost predicate Chain(w: World, from: DeclId, to: DeclId, growth: nat, n: nat)
    decreases n
  {
    if n == 0 then from == to && growth == 0
    else
      from in w.decls &&
      exists middle, first: nat :: DeclCalls(w, from, middle, first) && first <= growth &&
        Chain(w, middle, to, growth - first, n - 1)
  }

  /** Calls from the declaration can lengthen the path by `growth` on the way to a declaration that is entered. */
  ghost predicate Grows(w: World, from: DeclId, growth: nat) {
    exists to, n: nat :: Chain(w, from, to, growth, n) && to in w.decls && !w.decls[to].Enum?
  }

  ghost predicate GrowsAtMost(w: World, from: DeclId, most: nat) {
    forall growth: nat :: Grows(w, from, growth) ==> growth <= most
  }

  /** A closed record holds the end of every chain from what it holds. */
  lemma {:induction false} ClosedHoldsChain(
    w: World, record: Seen, from: DeclId, length: nat, to: DeclId, growth: nat, n: nat)
    requires AddedClosed(w, {}, record) && Entered(w, record, from, length) && Chain(w, from, to, growth, n)
    ensures Entered(w, record, to, length + growth)
    decreases n
  {
    if n > 0 {
      var middle, first: nat :| DeclCalls(w, from, middle, first) && first <= growth &&
        Chain(w, middle, to, growth - first, n - 1);
      assert ClosedAt(w, record, from, length);
      ClosedHoldsChain(w, record, middle, length + first, to, growth - first, n - 1);
    }
  }

  lemma LongestEntry(record: Seen) returns (longest: nat)
    ensures forall id, l :: (id, l) in record ==> l <= longest
    decreases record
  {
    longest := 0;
    if x :| x in record {
      longest := LongestEntry(record - {x});
      if longest < x.1 {
        longest := x.1;
      }
      forall id, l | (id, l) in record ensures l <= longest {
        assert (id, l) == x || (id, l) in record - {x};
      }
    }
  }

  /** When the walk of an unanswered name ends, the growth from its declaration is bounded. */
  lemma EndedIsBounded(w: World, id: DeclId, name: string, fuel: nat) returns (most: nat)
    requires KeysUnansweredIn(w) && id in w.decls && Unanswered(w, name)
    requires LookupDecl(w, id, [Member(name)], {}, fuel).Done?
    ensures GrowsAtMost(w, id, most)
  {
    DeclCloses(w, id, [Member(name)], {}, fuel);
    var record := LookupDecl(w, id, [Member(name)], {}, fuel).seen;
    most := LongestEntry(record);
    forall growth: nat | Grows(w, id, growth) ensures growth <= most {
      var to, n: nat :| Chain(w, id, to, growth, n) && to in w.decls && !w.decls[to].Enum?;
      ClosedHoldsChain(w, record, id, 1, to, growth, n);
    }
  }

  ghost predicate Greatest(w: World, id: DeclId, most: nat) {
    GrowsAtMost(w, id, most) && (most == 0 || Grows(w, id, most))
  }

  lemma {:induction false} GreatestExists(w: World, id: DeclId, bound: nat) returns (most: nat)
    requires GrowsAtMost(w, id, bound)
    ensures Greatest(w, id, most)
  {
    most := bound;
    if bound > 0 && !Grows(w, id, bound) {
      assert GrowsAtMost(w, id, bound - 1);
      most := GreatestExists(w, id, bound - 1);
    }
  }

  /** The greatest growth from a declaration, where it is bounded. */
  ghost function Growth(w: World, id: DeclId): nat {
    if exists most: nat :: Greatest(w, id, most) then
      var most: nat :| Greatest(w, id, most);
      most
    else 0
  }

  lemma CallKeepsGrowth(w: World, from: DeclId, to: DeclId, growth: nat)
    requires from in w.decls && DeclCalls(w, from, to, growth) && to in w.decls && !w.decls[to].Enum?
    requires (exists most: nat :: Greatest(w, from, most)) && exists most: nat :: Greatest(w, to, most)
    ensures Growth(w, to) + growth <= Growth(w, from)
  {
    var most := Growth(w, to);
    assert Greatest(w, to, most);
    if most == 0 {
      assert Chain(w, to, to, 0, 0);
    }
    var last, n: nat :| Chain(w, to, last, most, n) && last in w.decls && !w.decls[last].Enum?;
    assert most == growth + most - growth;
    ChainPrepends(w, from, to, growth, last, most, n);
    assert Grows(w, from, growth + most);
  }

  lemma ChainPrepends(w: World, from: DeclId, middle: DeclId, first: nat, to: DeclId, growth: nat, n: nat)
    requires from in w.decls && DeclCalls(w, from, middle, first) && Chain(w, middle, to, growth, n)
    ensures Chain(w, from, to, first + growth, n + 1)
  {
    assert first + growth - first == growth;
  }

  // ---------------------------------------------------------------- a potential from the growth

  /** At most `n` indexed accesses stand inside each other in `t`. */
  predicate DepthAtMost(t: Type, n: nat) {
    match t
    case Literal(elements) => forall m :: m in elements && m.Property? && m.typ.Some? ==> DepthAtMost(m.typ.value, n)
    case Parenthesized(inner) => DepthAtMost(inner, n)
    case Intersection(parts) => forall p :: p in parts ==> DepthAtMost(p, n)
    case Union(branches) => forall b :: b in branches ==> DepthAtMost(b, n)
    case ArrayOf(element) => DepthAtMost(element, n)
    case Operator(_, operand) => DepthAtMost(operand, n)
    case Indexed(target, _) => n > 0 && DepthAtMost(target, n - 1)
    case Reference(_, _, arguments) => forall a :: a in arguments ==> DepthAtMost(a, n)
    case OtherType => true
  }

  lemma {:induction false} DepthStays(t: Type, n: nat, more: nat)
    requires n <= more && DepthAtMost(t, n)
    ensures DepthAtMost(t, more)
    decreases t
  {
    match t
    case Literal(elements) =>
      forall m | m in elements && m.Property? && m.typ.Some? ensures DepthAtMost(m.typ.value, more) {
        DepthStays(m.typ.value, n, more);
      }
    case Parenthesized(inner) => DepthStays(inner, n, more);
    case Intersection(parts) =>
      forall p | p in parts ensures DepthAtMost(p, more) {
        DepthStays(p, n, more);
      }
    case Union(branches) =>
      forall b | b in branches ensures DepthAtMost(b, more) {
        DepthStays(b, n, more);
      }
    case ArrayOf(element) => DepthStays(element, n, more);
    case Operator(_, operand) => DepthStays(operand, n, more);
    case Indexed(target, _) => DepthStays(target, n - 1, more - 1);
    case Reference(_, _, arguments) =>
      forall a | a in arguments ensures DepthAtMost(a, more) {
        DepthStays(a, n, more);
      }
    case OtherType =>
  }

  lemma {:induction false} FiniteDepth(t: Type) returns (n: nat)
    ensures DepthAtMost(t, n)
    decreases t
  {
    n := 0;
    match t
    case Literal(elements) => n := FiniteDepthOfMembers(elements);
    case Parenthesized(inner) => n := FiniteDepth(inner);
    case Intersection(parts) => n := FiniteDepths(parts);
    case Union(branches) => n := FiniteDepths(branches);
    case ArrayOf(element) => n := FiniteDepth(element);
    case Operator(_, operand) => n := FiniteDepth(operand);
    case Indexed(target, _) =>
      n := FiniteDepth(target);
      n := n + 1;
    case Reference(_, _, arguments) => n := FiniteDepths(arguments);
    case OtherType =>
  }

  lemma {:induction false} FiniteDepths(ts: seq<Type>) returns (n: nat)
    ensures forall t :: t in ts ==> DepthAtMost(t, n)
    decreases ts
  {
    n := 0;
    if ts != [] {
      var last := |ts| - 1;
      var front := FiniteDepths(ts[..last]);
      var own := FiniteDepth(ts[last]);
      n := front + own;
      forall t | t in ts ensures DepthAtMost(t, n) {
        if t == ts[last] {
          DepthStays(t, own, n);
        } else {
          assert t in ts[..last];
          DepthStays(t, front, n);
        }
      }
    }
  }

  lemma {:induction false} FiniteDepthOfMembers(elements: seq<TypeElement>) returns (n: nat)
    ensures DepthAtMost(Literal(elements), n)
    decreases elements
  {
    n := 0;
    if elements != [] {
      var last := |elements| - 1;
      var front := FiniteDepthOfMembers(elements[..last]);
      var own := 0;
      if elements[last].Property? && elements[last].typ.Some? {
        own := FiniteDepth(elements[last].typ.value);
      }
      n := front + own;
      forall m | m in elements && m.Property? && m.typ.Some? ensures DepthAtMost(m.typ.value, n) {
        if m == elements[last] {
          DepthStays(m.typ.value, own, n);
        } else {
          assert m in elements[..last];
          DepthStays(m.typ.value, front, n);
        }
      }
    }
  }

  ghost predicate DepthsAtMost(w: World, ids: set<DeclId>, n: nat) {
    forall id, t :: id in ids && id in w.decls && Writes(w.decls[id], t) ==> DepthAtMost(t, n)
  }

  /** One bound for the nesting of indexed access, and for the growth, over all declarations. */
  lemma FiniteScale(w: World, ids: set<DeclId>) returns (deep: nat, most: nat)
    ensures DepthsAtMost(w, ids, deep) && forall id :: id in ids ==> Growth(w, id) <= most
    decreases ids
  {
    deep, most := 0, 0;
    if id :| id in ids {
      var rest, restMost := FiniteScale(w, ids - {id});
      var own := 0;
      if id in w.decls && w.decls[id].Interface? {
        own := FiniteDepthOfMembers(w.decls[id].elements);
      } else if id in w.decls && w.decls[id].Alias? {
        own := FiniteDepth(w.decls[id].typ);
      }
      deep, most := rest + own, restMost + Growth(w, id);
      forall other, t | other in ids && other in w.decls && Writes(w.decls[other], t) ensures DepthAtMost(t, deep) {
        DepthStays(t, if other == id then own else rest, deep);
      }
      forall other | other in ids ensures Growth(w, other) <= most {
        assert other == id || other in ids - {id};
      }
    }
  }

  /** `rank` times `scale`. */
  function Scaled(rank: nat, scale: nat): nat {
    if rank == 0 then 0 else Scaled(rank - 1, scale) + scale
  }

  lemma {:induction false} ScaledRises(rank: nat, higher: nat, scale: nat)
    requires rank <= higher
    ensures Scaled(rank, scale) <= Scaled(higher, scale)
    ensures rank < higher ==> Scaled(rank, scale) + scale <= Scaled(higher, scale)
  {
    if rank < higher {
      ScaledRises(rank, higher - 1, scale);
    }
  }

  /** The potential covers every declaration of lower rank with room for the nesting of indexed access. */
  ghost predicate CoversBelow(w: World, phi: Potential, rank: Rank, from: nat, deep: nat, budget: int) {
    forall e :: e in w.decls && rank(e) < from ==> phi(e) + deep <= budget
  }

  lemma {:induction false} HoppedCovered(
    w: World, phi: Potential, rank: Rank, file: string, t: Type, from: nat, deep: nat, budget: int)
    requires Descends(w, rank, file, t, from, true, true) && DepthAtMost(t, deep) &&
             CoversBelow(w, phi, rank, from, deep, budget)
    ensures Covered(w, phi, file, t, budget)
    decreases t
  {
    match t
    case Literal(elements) =>
      forall m | m in elements && m.Property? && m.typ.Some? ensures Covered(w, phi, file, m.typ.value, budget + 1) {
        HoppedCovered(w, phi, rank, file, m.typ.value, from, deep, budget + 1);
      }
    case Parenthesized(inner) => HoppedCovered(w, phi, rank, file, inner, from, deep, budget);
    case Intersection(parts) =>
      forall p | p in parts ensures Covered(w, phi, file, p, budget) {
        HoppedCovered(w, phi, rank, file, p, from, deep, budget);
      }
    case Union(branches) =>
      forall b | b in branches ensures Covered(w, phi, file, b, budget) {
        HoppedCovered(w, phi, rank, file, b, from, deep, budget);
      }
    case ArrayOf(element) => HoppedCovered(w, phi, rank, file, element, from, deep, budget + 1);
    case Operator(_, operand) => HoppedCovered(w, phi, rank, file, operand, from, deep, budget);
    case Indexed(target, key) =>
      if key.Some? {
        HoppedCovered(w, phi, rank, file, target, from, deep - 1, budget - 1);
      }
    case Reference(head, _, arguments) =>
      if (Passthrough(head) || ArrayName(head)) && arguments != [] {
        assert arguments[0] in arguments;
        HoppedCovered(w, phi, rank, file, arguments[0], from, deep, if Passthrough(head) then budget else budget + 1);
      }
    case OtherType =>
  }

  /** Every declaration that walking `t` enters before any hop is covered where it is entered. */
  ghost predicate CoversCalls(w: World, phi: Potential, file: string, t: Type, budget: int) {
    forall e, growth: nat :: TypeCalls(w, file, t, e, growth) && e in w.decls && !w.decls[e].Enum? ==>
        phi(e) + growth <= budget
  }

  /** The walk of `t` continues with `part` on the same path. */
  predicate Continues(t: Type, part: Type) {
    match t
    case Parenthesized(inner) => part == inner
    case Intersection(parts) => part in parts
    case Union(branches) => part in branches
    case Operator(_, operand) => part == operand
    case Reference(head, _, arguments) => Passthrough(head) && arguments != [] && part == arguments[0]
    case _ => false
  }

  lemma PassesThrough(w: World, file: string, t: Type, part: Type)
    requires Continues(t, part)
    ensures forall e, growth: nat :: TypeCalls(w, file, part, e, growth) ==> TypeCalls(w, file, t, e, growth)
  {
  }

  lemma {:induction false} CallsCovered(
    w: World, phi: Potential, rank: Rank, file: string, t: Type, from: nat, deep: nat, budget: int)
    requires Descends(w, rank, file, t, from, false, true) && DepthAtMost(t, deep) &&
             CoversBelow(w, phi, rank, from, deep, budget)
    requires CoversCalls(w, phi, file, t, budget)
    ensures Covered(w, phi, file, t, budget)
    decreases t
  {
    match t
    case Literal(elements) =>
      forall m | m in elements && m.Property? && m.typ.Some? ensures Covered(w, phi, file, m.typ.value, budget + 1) {
        HoppedCovered(w, phi, rank, file, m.typ.value, from, deep, budget + 1);
      }
    case Parenthesized(inner) =>
      PassesThrough(w, file, t, inner);
      CallsCovered(w, phi, rank, file, inner, from, deep, budget);
    case Intersection(parts) =>
      forall p | p in parts ensures Covered(w, phi, file, p, budget) {
        PassesThrough(w, file, t, p);
        CallsCovered(w, phi, rank, file, p, from, deep, budget);
      }
    case Union(branches) =>
      forall b | b in branches ensures Covered(w, phi, file, b, budget) {
        PassesThrough(w, file, t, b);
        CallsCovered(w, phi, rank, file, b, from, deep, budget);
      }
    case ArrayOf(element) => HoppedCovered(w, phi, rank, file, element, from, deep, budget + 1);
    case Operator(_, operand) =>
      PassesThrough(w, file, t, operand);
      CallsCovered(w, phi, rank, file, operand, from, deep, budget);
    case Indexed(target, key) =>
      if key.Some? {
        forall e, growth: nat | TypeCalls(w, file, target, e, growth) && e in w.decls && !w.decls[e].Enum?
          ensures phi(e) + growth <= budget - 1
        {
          assert TypeCalls(w, file, t, e, growth + 1);
        }
        CallsCovered(w, phi, rank, file, target, from, deep - 1, budget - 1);
      }
    case Reference(head, qualified, arguments) =>
      if Passthrough(head) && arguments != [] {
        assert arguments[0] in arguments;
        PassesThrough(w, file, t, arguments[0]);
        CallsCovered(w, phi, rank, file, arguments[0], from, deep, budget);
      } else if ArrayName(head) && arguments != [] {
        assert arguments[0] in arguments;
        HoppedCovered(w, phi, rank, file, arguments[0], from, deep, budget + 1);
      } else if !qualified && Resolve(w, file, head).Some? {
        assert TypeCalls(w, file, t, Resolve(w, file, head).value, 0);
      }
    case OtherType =>
  }

  // ---------------------------------------------------------------- the condition is exact

  /** Every walk ends, whatever path is asked for and whatever was entered before. */
  ghost predicate AllWalksEnd(w: World) {
    forall id, steps, seen :: id in w.decls ==> WalkEnds(w, id, steps, seen)
  }

  ghost predicate WalkEnds(w: World, id: DeclId, steps: seq<Step>, seen: Seen)
    requires id in w.decls
  {
    exists fuel: nat :: LookupDecl(w, id, steps, seen, fuel).Done?
  }

  lemma LongestText(elements: seq<TypeElement>) returns (n: nat)
    ensures forall m :: m in elements && m.Property? ==> |m.text| <= n
  {
    n := 0;
    for k := 0 to |elements|
      invariant forall i :: 0 <= i < k && elements[i].Property? ==> |elements[i].text| <= n
    {
      if elements[k].Property? && |elements[k].text| > n {
        n := |elements[k].text|;
      }
    }
  }

  lemma LongestTextIn(w: World, ids: set<DeclId>) returns (n: nat)
    ensures forall id, m ::
              id in ids && id in w.decls && w.decls[id].Interface? && m in w.decls[id].elements && m.Property? ==>
              |m.text| <= n
    decreases ids
  {
    n := 0;
    if id :| id in ids {
      var rest := LongestTextIn(w, ids - {id});
      var own := 0;
      if id in w.decls && w.decls[id].Interface? {
        own := LongestText(w.decls[id].elements);
      }
      n := rest + own;
      forall other, m |
        other in ids && other in w.decls && w.decls[other].Interface? && m in w.decls[other].elements && m.Property?
        ensures |m.text| <= n
      {
        assert other == id || other in ids - {id};
      }
    }
  }

  lemma UnansweredName(w: World) returns (name: string)
    ensures Unanswered(w, name)
  {
    var n := LongestTextIn(w, w.decls.Keys);
    name := seq(n + 1, _ => 'x');
  }

  lemma GreatestEverywhere(w: World, id: DeclId)
    requires KeysUnansweredIn(w) && AllWalksEnd(w) && id in w.decls
    ensures exists most: nat :: Greatest(w, id, most)
  {
    var name := UnansweredName(w);
    assert WalkEnds(w, id, [Member(name)], {});
    var fuel: nat :| LookupDecl(w, id, [Member(name)], {}, fuel).Done?;
    var bound := EndedIsBounded(w, id, name, fuel);
    var most := GreatestExists(w, id, bound);
  }

  /** A share for each rank, and growth on top of it where there is indexed access. */
  ghost function Share(w: World, rank: Rank, scale: nat): Potential {
    id => (if QuietRank(w, rank, rank(id)) then 0 else Growth(w, id)) + Scaled(rank(id), scale)
  }

  lemma SharesCover(w: World, rank: Rank, deep: nat, most: nat, id: DeclId)
    requires forall e :: e in w.decls ==> Growth(w, e) <= most
    ensures CoversBelow(w, Share(w, rank, deep + most), rank, rank(id), deep, Share(w, rank, deep + most)(id))
  {
    forall e | e in w.decls && rank(e) < rank(id)
      ensures Share(w, rank, deep + most)(e) + deep <= Share(w, rank, deep + most)(id)
    {
      ScaledRises(rank(e), rank(id), deep + most);
    }
  }

  lemma AliasCovered(w: World, phi: Potential, rank: Rank, id: DeclId, deep: nat)
    requires id in w.decls && w.decls[id].Alias? && DeclDescends(w, rank, id, true) && DepthsAtMost(w, {id}, deep)
    requires CoversBelow(w, phi, rank, rank(id), deep, phi(id))
    requires CoversCalls(w, phi, id.file, w.decls[id].typ, phi(id))
    ensures CoveredDecl(w, phi, id)
  {
    assert Writes(w.decls[id], w.decls[id].typ);
    CallsCovered(w, phi, rank, id.file, w.decls[id].typ, rank(id), deep, phi(id));
  }

  lemma InterfaceCovered(w: World, phi: Potential, rank: Rank, id: DeclId, deep: nat)
    requires id in w.decls && w.decls[id].Interface? && DeclDescends(w, rank, id, true) && DepthsAtMost(w, {id}, deep)
    requires CoversBelow(w, phi, rank, rank(id), deep, phi(id))
    requires forall b, e :: b in w.decls[id].bases && BaseCalls(w, id.file, b, e) && !w.decls[e].Enum? ==>
             phi(e) <= phi(id)
    ensures CoveredDecl(w, phi, id)
  {
    var elements := w.decls[id].elements;
    assert Descends(w, rank, id.file, Literal(elements), rank(id), false, true);
    forall m | m in elements && m.Property? && m.typ.Some? ensures Covered(w, phi, id.file, m.typ.value, phi(id) + 1) {
      assert Writes(w.decls[id], m.typ.value);
      HoppedCovered(w, phi, rank, id.file, m.typ.value, rank(id), deep, phi(id) + 1);
    }
    forall b | b in w.decls[id].bases && b.NamedBase? && Resolve(w, id.file, b.name).Some?
      ensures CoveredTarget(w, phi, Resolve(w, id.file, b.name).value, phi(id))
    {
      assert BaseCalls(w, id.file, b, Resolve(w, id.file, b.name).value);
    }
  }

  /** Calls never outgrow a potential made of growth and shares. */
  lemma CallShared(w: World, rank: Rank, scale: nat, from: DeclId, to: DeclId, growth: nat)
    requires KeysUnansweredIn(w) && AllWalksEnd(w) && from in w.decls && to in w.decls && !w.decls[to].Enum?
    requires DeclCalls(w, from, to, growth) && rank(to) <= rank(from) && !QuietRank(w, rank, rank(from))
    ensures Share(w, rank, scale)(to) + growth <= Share(w, rank, scale)(from)
  {
    GreatestEverywhere(w, from);
    GreatestEverywhere(w, to);
    CallKeepsGrowth(w, from, to, growth);
    ScaledRises(rank(to), rank(from), scale);
  }

  /** Before any hop, references lead to no higher rank. */
  lemma {:induction false} CallsDescend(w: World, rank: Rank, file: string, t: Type, from: nat, to: DeclId, growth: nat)
    requires Descends(w, rank, file, t, from, false, true) && TypeCalls(w, file, t, to, growth)
    ensures rank(to) <= from
    decreases t
  {
    match t
    case Parenthesized(inner) => CallsDescend(w, rank, file, inner, from, to, growth);
    case Intersection(parts) =>
      var p :| p in parts && TypeCalls(w, file, p, to, growth);
      CallsDescend(w, rank, file, p, from, to, growth);
    case Union(branches) =>
      var b :| b in branches && TypeCalls(w, file, b, to, growth);
      CallsDescend(w, rank, file, b, from, to, growth);
    case Operator(_, operand) => CallsDescend(w, rank, file, operand, from, to, growth);
    case Indexed(target, _) => CallsDescend(w, rank, file, target, from, to, growth - 1);
    case Reference(head, _, arguments) =>
      if Passthrough(head) && arguments != [] {
        CallsDescend(w, rank, file, arguments[0], from, to, growth);
      }
  }

  /** Without indexed access, what reaches no higher rank is covered by the share of its rank. */
  lemma {:induction false} QuietCovered(
    w: World, phi: Potential, rank: Rank, file: string, t: Type, from: nat, down: bool, budget: int)
    requires NoIndexedAccess(t) && Descends(w, rank, file, t, from, down, false)
    requires forall e :: e in w.decls && rank(e) <= from ==> phi(e) <= budget
    ensures Covered(w, phi, file, t, budget)
    decreases t
  {
    match t
    case Literal(elements) =>
      forall m | m in elements && m.Property? && m.typ.Some? ensures Covered(w, phi, file, m.typ.value, budget + 1) {
        QuietCovered(w, phi, rank, file, m.typ.value, from, false, budget + 1);
      }
    case Parenthesized(inner) => QuietCovered(w, phi, rank, file, inner, from, down, budget);
    case Intersection(parts) =>
      forall p | p in parts ensures Covered(w, phi, file, p, budget) {
        QuietCovered(w, phi, rank, file, p, from, down, budget);
      }
    case Union(branches) =>
      forall b | b in branches ensures Covered(w, phi, file, b, budget) {
        QuietCovered(w, phi, rank, file, b, from, down, budget);
      }
    case ArrayOf(element) => QuietCovered(w, phi, rank, file, element, from, false, budget + 1);
    case Operator(_, operand) => QuietCovered(w, phi, rank, file, operand, from, down, budget);
    case Indexed(_, _) =>
    case Reference(head, _, arguments) =>
      if Passthrough(head) && arguments != [] {
        assert arguments[0] in arguments;
        QuietCovered(w, phi, rank, file, arguments[0], from, down, budget);
      } else if ArrayName(head) && arguments != [] {
        assert arguments[0] in arguments;
        QuietCovered(w, phi, rank, file, arguments[0], from, false, budget + 1);
      }
    case OtherType =>
  }

  /** A declaration of a rank without indexed access keeps to the share of its rank. */
  lemma QuietShared(w: World, rank: Rank, deep: nat, most: nat, id: DeclId)
    requires HopsDescend(w, rank) && id in w.decls && QuietRank(w, rank, rank(id))
    requires forall e :: e in w.decls ==> Growth(w, e) <= most
    ensures CoveredDecl(w, Share(w, rank, deep + most), id)
  {
    var phi := Share(w, rank, deep + most);
    forall e | e in w.decls && rank(e) <= rank(id) ensures phi(e) <= phi(id) {
      ScaledRises(rank(e), rank(id), deep + most);
    }
    assert DeclDescends(w, rank, id, false) && Quiet(w, id);
    match w.decls[id]
    case Interface(elements, bases) =>
      forall m | m in elements && m.Property? && m.typ.Some?
        ensures Covered(w, phi, id.file, m.typ.value, phi(id) + 1)
      {
        assert Writes(w.decls[id], m.typ.value);
        QuietCovered(w, phi, rank, id.file, m.typ.value, rank(id), false, phi(id) + 1);
      }
    case Alias(typ) =>
      assert Writes(w.decls[id], typ);
      QuietCovered(w, phi, rank, id.file, typ, rank(id), false, phi(id));
    case Enum =>
  }

  lemma DeclShared(w: World, rank: Rank, deep: nat, most: nat, id: DeclId)
    requires KeysUnansweredIn(w) && AllWalksEnd(w) && HopsDescend(w, rank) && id in w.decls
    requires DepthsAtMost(w, w.decls.Keys, deep) && forall e :: e in w.decls ==> Growth(w, e) <= most
    ensures CoveredDecl(w, Share(w, rank, deep + most), id)
  {
    var phi := Share(w, rank, deep + most);
    SharesCover(w, rank, deep, most, id);
    if QuietRank(w, rank, rank(id)) {
      QuietShared(w, rank, deep, most, id);
      return;
    }
    assert DeclDescends(w, rank, id, true);
    match w.decls[id]
    case Interface(elements, bases) =>
      forall b, e | b in bases && BaseCalls(w, id.file, b, e) && !w.decls[e].Enum? ensures phi(e) <= phi(id) {
        CallShared(w, rank, deep + most, id, e, 0);
      }
      InterfaceCovered(w, phi, rank, id, deep);
    case Alias(typ) =>
      forall e, growth: nat | TypeCalls(w, id.file, typ, e, growth) && e in w.decls && !w.decls[e].Enum?
        ensures phi(e) + growth <= phi(id)
      {
        CallsDescend(w, rank, id.file, typ, rank(id), e, growth);
        CallShared(w, rank, deep + most, id, e, growth);
      }
      AliasCovered(w, phi, rank, id, deep);
    case Enum =>
  }

  /**
   Where no reference cycle passes both a hop and an indexed access, and no key asked for is
   answered by an interface with heritage, every walk ends if and only if the growth of paths is
   bounded.
   */
  lemma AllWalksEndIffBounded(w: World, rank: Rank)
    requires KeysUnansweredIn(w) && HopsDescend(w, rank)
    ensures AllWalksEnd(w) <==> exists phi :: BoundedGrowth(w, phi)
  {
    if phi :| BoundedGrowth(w, phi) {
      forall id, steps, seen | id in w.decls ensures WalkEnds(w, id, steps, seen) {
        var fuel := DeclWalkEnds(w, phi, |steps| + phi(id), id, steps, seen);
      }
    }
    if AllWalksEnd(w) {
      var deep, most := FiniteScale(w, w.decls.Keys);
      forall id | id in w.decls ensures CoveredDecl(w, Share(w, rank, deep + most), id) {
        DeclShared(w, rank, deep, most, id);
      }
      assert BoundedGrowth(w, Share(w, rank, deep + most));
    }
  }

  // ---------------------------------------------------------------- elsewhere the bound is not necessary

  /** `type A = B['x']['x']; interface B { y: A }`. */
  function AnsweredNowhere(a: DeclId, b: DeclId): World {
    World(
      map[(a.file, "B") := b, (b.file, "A") := a],
      map[a := Alias(Indexed(Indexed(Reference("B", false, []), Some("x")), Some("x"))),
          b := Interface([Property("y", "y", Some(Reference("A", false, [])))], [])])
  }

  lemma BWalkEnds(a: DeclId, b: DeclId, steps: seq<Step>, seen: Seen)
    requires a != b && steps != [] && steps[0] == Member("x")
    ensures LookupDecl(AnsweredNowhere(a, b), b, steps, seen, 1).Done?
  {
    FindPropertyIn([Property("y", "y", Some(Reference("A", false, [])))], "x");
  }

  lemma AWalkEnds(a: DeclId, b: DeclId, steps: seq<Step>, seen: Seen)
    requires a != b
    ensures LookupDecl(AnsweredNowhere(a, b), a, steps, seen, 5).Done?
  {
    var w, reference := AnsweredNowhere(a, b), Reference("B", false, []);
    var once := [Member("x")] + steps;
    var twice := [Member("x")] + once;
    var entered := seen + {(a, |steps|)};
    BWalkEnds(a, b, twice, entered);
    assert LookupType(w, a.file, reference, twice, entered, 2) == LookupDecl(w, b, twice, entered, 1);
    assert LookupType(w, a.file, Indexed(reference, Some("x")), once, entered, 3) ==
           LookupType(w, a.file, reference, twice, entered, 2);
  }

  lemma AnyBWalkEnds(a: DeclId, b: DeclId, steps: seq<Step>, seen: Seen)
    requires a != b
    ensures LookupDecl(AnsweredNowhere(a, b), b, steps, seen, 7).Done?
  {
    var w, property := AnsweredNowhere(a, b), Property("y", "y", Some(Reference("A", false, [])));
    if steps != [] && steps[0].Member? && |steps| > 1 {
      var entered := seen + {(b, |steps|)};
      AWalkEnds(a, b, steps[1..], entered);
      FindPropertyIn([property], steps[0].name);
      assert LookupType(w, b.file, Reference("A", false, []), steps[1..], entered, 6).Done?;
      assert IntoProperty(w, b.file, property, steps, entered, 6).Done?;
    }
  }

  /** Every walk ends, although no potential bounds the growth: nothing answers the key that is asked for. */
  lemma EndsWithoutPotential(a: DeclId, b: DeclId, phi: Potential)
    requires a != b
    ensures AllWalksEnd(AnsweredNowhere(a, b)) && !BoundedGrowth(AnsweredNowhere(a, b), phi)
  {
    var w := AnsweredNowhere(a, b);
    assert Property("y", "y", Some(Reference("A", false, []))) in w.decls[b].elements;
    var reference := Reference("B", false, []);
    assert Covered(w, phi, a.file, reference, phi(a) - 2) <==> phi(b) <= phi(a) - 2;
    assert Covered(w, phi, a.file, Indexed(reference, Some("x")), phi(a) - 1) <==> phi(b) <= phi(a) - 2;
    assert CoveredDecl(w, phi, a) <==> phi(b) <= phi(a) - 2;
    assert Covered(w, phi, b.file, Reference("A", false, []), phi(b) + 1) <==> phi(a) <= phi(b) + 1;
    assert CoveredDecl(w, phi, b) ==> phi(a) <= phi(b) + 1;
    forall id, steps, seen | id in w.decls ensures WalkEnds(w, id, steps, seen) {
      AWalkEnds(a, b, steps, seen);
      AnyBWalkEnds(a, b, steps, seen);
    }
  }
}
