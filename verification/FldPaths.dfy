/** Which field a field location leads to, as a relation between the fields on the way. */
module FldPaths {
  import opened Wrappers
  import opened FldLocs
  import opened FldParse

  /** One path element leads from `f` to `g`: a name to the first member with it, none to the containing structure. */
  ghost predicate StepTo(a: Arena, f: Ptr, step: Option<string>, g: Ptr)
    requires f < |a|
  {
    match step
    case Some(name) => a[f].ty == StructT && exists k: nat :: MemberAt(a[f], name, k) && g == a[f].first + k
    case None => a[f].parent != NONE && g == a[f].parent
  }

  /** Member `k` has this name, and none before it has. */
  ghost predicate MemberAt(f: Fld, name: string, k: nat) {
    k < |f.members| && f.members[k] == name && forall j | 0 <= j < k :: f.members[j] != name
  }

  /**
    The path goes on from `g` at `h`: from a structure there, and from an array at the element of it that is being
    decoded, or if that is an array, at its element in turn.
   */
  ghost predicate Enters(a: Arena, g: Ptr, h: Ptr)
    requires g < |a|
    decreases |a| - g
  {
    match a[g].ty
    case StructT => h == g
    case ArrT =>
      && a[g].nVals < a[g].len
      && var e := a[g].first + a[g].nVals;
         g < e < |a| && if a[e].ty == ArrT then Enters(a, e, h) else h == e
    case _ => false
  }

  /** A path element that is not the last leads from `f` to `h`, by way of `g`. */
  ghost predicate By(a: Arena, f: Ptr, step: Option<string>, g: Ptr, h: Ptr)
    requires f < |a|
  {
    g < |a| && h < |a| && StepTo(a, f, step, g) && Enters(a, g, h)
  }

  /** The path leads from `f` to the leaf `g`. */
  ghost predicate Leads(a: Arena, f: Ptr, path: seq<Option<string>>, g: Ptr)
    requires f < |a|
    decreases |path|
  {
    && path != []
    && if |path| == 1 then g < |a| && StepTo(a, f, path[0], g) && IsLeaf(a[g].ty)
       else exists e: Ptr, h: Ptr :: By(a, f, path[0], e, h) && Leads(a, h, path[1..], g)
  }

  /** The path leads from `f` to something that is no structure, where it has a name to go on with. */
  ghost predicate Strays(a: Arena, f: Ptr, path: seq<Option<string>>)
    requires f < |a|
    decreases |path|
  {
    && path != []
    && (|| (path[0].Some? && a[f].ty != StructT)
        || exists e: Ptr, h: Ptr :: By(a, f, path[0], e, h) && Strays(a, h, path[1..]))
  }

  /** Where the path of a location starts: the structure that contains the asking field, or a root. */
  ghost predicate StartsFrom(a: Arena, loc: FldLoc, cur: Ptr, f: Ptr)
    requires cur < |a|
  {
    && f == (if loc.origin == Relative then a[cur].parent else RootOf(loc.origin))
    && f != NONE && f < |a| && a[f].ty == StructT
  }

  lemma {:induction false} MemberIndexIs(f: Fld, name: string, k: nat)
    ensures MemberAt(f, name, k) <==> MemberIndex(f.members, name) == Some(k)
  {
    var r := MemberIndex(f.members, name);
    if r.Some? {
      forall j | 0 <= j < r.value ensures f.members[j] != name {
        assert f.members[j] == f.members[..r.value][j];
      }
    }
  }

  lemma NextIsStep(a: Arena, f: Ptr, step: Option<string>, g: Ptr)
    requires f < |a| && AllParts(a)
    ensures StepTo(a, f, step, g) <==> Next(a, f, step) == Found(g)
    ensures Next(a, f, step) == Aborts <==> step.Some? && a[f].ty != StructT
  {
    if step.Some? && a[f].ty == StructT {
      var name := step.value;
      forall k: nat ensures MemberAt(a[f], name, k) <==> MemberIndex(a[f].members, name) == Some(k) {
        MemberIndexIs(a[f], name, k);
      }
      if Next(a, f, step) == Found(g) { assert MemberAt(a[f], name, MemberIndex(a[f].members, name).value); }
    }
  }

  lemma {:induction false} CurrentEnters(a: Arena, g: Ptr, h: Ptr)
    requires g < |a| && AllParts(a)
    ensures Enters(a, g, h) <==> if a[g].ty == StructT then h == g else a[g].ty == ArrT && Current(a, g) == Some(h)
    decreases |a| - g
  {
    assert PartsOk(a, g);
    if a[g].ty == ArrT && a[g].nVals < a[g].len { CurrentEnters(a, a[g].first + a[g].nVals, h); }
  }

  /** Where the loop over the path goes on. */
  lemma OnlyBy(a: Arena, f: Ptr, step: Option<string>, g: Ptr, e: Ptr, h: Ptr)
    requires f < |a| && AllParts(a) && Next(a, f, step) == Found(g)
    ensures By(a, f, step, e, h) <==>
      e == g && if a[e].ty == StructT then h == e else a[e].ty == ArrT && Current(a, e) == Some(h)
  {
    NextIsStep(a, f, step, e);
    CurrentEnters(a, g, h);
  }

  lemma NoWay(a: Arena, f: Ptr, step: Option<string>, e: Ptr, h: Ptr)
    requires f < |a| && AllParts(a) && !Next(a, f, step).Found?
    ensures !By(a, f, step, e, h)
  {
    NextIsStep(a, f, step, e);
  }

  /** At most one way goes on. */
  lemma OneWay(a: Arena, f: Ptr, path: seq<Option<string>>) returns (way: Option<Ptr>)
    requires f < |a| && AllParts(a) && path != []
    ensures way.Some? ==> way.value < |a| && exists e: Ptr :: By(a, f, path[0], e, way.value)
    ensures forall e: Ptr, h: Ptr :: By(a, f, path[0], e, h) ==> way == Some(h)
    ensures |path| > 1 && Next(a, f, path[0]) != Aborts ==>
      Walk(a, f, path) == if way.None? then NotFound else Walk(a, way.value, path[1..])
  {
    var n := Next(a, f, path[0]);
    way := None;
    if n.Found? {
      forall e: Ptr, h: Ptr ensures By(a, f, path[0], e, h) <==>
          e == n.fld && if a[e].ty == StructT then h == e else a[e].ty == ArrT && Current(a, e) == Some(h)
      {
        OnlyBy(a, f, path[0], n.fld, e, h);
      }
      if a[n.fld].ty == StructT {
        way := Some(n.fld);
      } else if a[n.fld].ty == ArrT {
        way := Current(a, n.fld);
      }
      if way.Some? { assert By(a, f, path[0], n.fld, way.value); }
    } else {
      forall e: Ptr, h: Ptr ensures !By(a, f, path[0], e, h) {
        NoWay(a, f, path[0], e, h);
      }
    }
  }

  lemma {:induction false} WalkLeads(a: Arena, f: Ptr, path: seq<Option<string>>, g: Ptr)
    requires f < |a| && AllParts(a)
    ensures Walk(a, f, path) == Found(g) <==> Leads(a, f, path, g)
    ensures Walk(a, f, path) == Aborts <==> Strays(a, f, path)
    decreases |path|
  {
    if path != [] {
      NextIsStep(a, f, path[0], g);
      var way := OneWay(a, f, path);
      if way.Some? { WalkLeads(a, way.value, path[1..], g); }
    }
  }

  /** The location leads to the leaf `g`. */
  ghost predicate LocLeads(a: Arena, loc: FldLoc, cur: Ptr, g: Ptr)
    requires cur < |a|
  {
    exists f: Ptr :: StartsFrom(a, loc, cur, f) && Leads(a, f, loc.path, g)
  }

  ghost predicate LocStrays(a: Arena, loc: FldLoc, cur: Ptr)
    requires cur < |a|
  {
    exists f: Ptr :: StartsFrom(a, loc, cur, f) && Strays(a, f, loc.path)
  }

  /**
    A location denotes a field exactly if its path leads there, and the code's assertion that a value is a structure
    fails exactly if the path strays.
   */
  lemma DenotedLeads(a: Arena, loc: FldLoc, cur: Ptr, g: Ptr)
    requires cur < |a| && |a| > ROOTS && AllParts(a)
    ensures Denoted(a, loc, cur) == Found(g) <==> LocLeads(a, loc, cur, g)
    ensures Denoted(a, loc, cur) == Aborts <==> LocStrays(a, loc, cur)
  {
    assert PartsOk(a, cur);
    var f := if loc.origin == Relative then a[cur].parent else RootOf(loc.origin);
    if StartsFrom(a, loc, cur, f) { WalkLeads(a, f, loc.path, g); }
  }

  /** `r` is what locating comes to: the field that the path leads to, if any. */
  ghost predicate IsLocated(a: Arena, loc: FldLoc, cur: Ptr, r: Located)
    requires cur < |a|
  {
    && (forall g: Ptr :: r == Found(g) <==> LocLeads(a, loc, cur, g))
    && (r == Aborts <==> LocStrays(a, loc, cur))
  }

  lemma DenotedIsLocated(a: Arena, loc: FldLoc, cur: Ptr)
    requires cur < |a| && |a| > ROOTS && AllParts(a)
    ensures IsLocated(a, loc, cur, Denoted(a, loc, cur))
  {
    forall g: Ptr ensures Denoted(a, loc, cur) == Found(g) <==> LocLeads(a, loc, cur, g) {
      DenotedLeads(a, loc, cur, g);
    }
    DenotedLeads(a, loc, cur, NONE);
  }

  /** `r` is the length that the class tells, or that the unsigned integer holds to which the location leads. */
  ghost predicate IsLength(a: Arena, len: Length, cur: Ptr, r: Result<nat, Error>)
    requires cur < |a|
  {
    match len
    case Static(n) => r == Ok(n)
    case Dynamic(loc) =>
      match r
      case Ok(n) => exists g: Ptr :: g < |a| && LocLeads(a, loc, cur, g) && a[g].ty == UintT && a[g].val == n
      case Err(WrongFldType) => exists g: Ptr :: g < |a| && LocLeads(a, loc, cur, g) && a[g].ty != UintT
      case Err(MissingFldLoc) => !LocStrays(a, loc, cur) && forall g: Ptr :: !LocLeads(a, loc, cur, g)
      case Err(AssertionFails) => LocStrays(a, loc, cur)
      case _ => false
  }

  lemma LengthOfIsLength(a: Arena, len: Length, cur: Ptr)
    requires cur < |a| && |a| > ROOTS && AllParts(a)
    ensures IsLength(a, len, cur, LengthOf(a, len, cur))
  {
    if len.Dynamic? {
      DenotedIsLocated(a, len.loc, cur);
      var d := Denoted(a, len.loc, cur);
      assert d.Found? ==> LocLeads(a, len.loc, cur, d.fld);
    }
  }

  /** `r` is the field to which the location of a selector leads. */
  ghost predicate IsSelector(a: Arena, loc: FldLoc, cur: Ptr, r: Result<Fld, Error>)
    requires cur < |a|
  {
    match r
    case Ok(f) => exists g: Ptr :: g < |a| && LocLeads(a, loc, cur, g) && a[g] == f
    case Err(MissingFldLoc) => !LocStrays(a, loc, cur) && forall g: Ptr :: !LocLeads(a, loc, cur, g)
    case Err(AssertionFails) => LocStrays(a, loc, cur)
    case _ => false
  }

  lemma SelectorOfIsSelector(a: Arena, loc: FldLoc, cur: Ptr)
    requires cur < |a| && |a| > ROOTS && AllParts(a)
    ensures IsSelector(a, loc, cur, SelectorOf(a, loc, cur))
  {
    DenotedIsLocated(a, loc, cur);
    var d := Denoted(a, loc, cur);
    assert d.Found? ==> LocLeads(a, loc, cur, d.fld);
  }
}
