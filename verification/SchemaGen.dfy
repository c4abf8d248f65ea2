// Flattening DWARF structures (src/fastdyn/binary/schema_gen.py:32-147): every leaf of a nest of
// structures becomes one field with a dotted name and an offset from the outermost structure.
module SchemaGen {
  import opened Options

  const FIELD_UINT32: nat := 0
  const FIELD_UINT16: nat := 1
  const FIELD_UINT8: nat := 2
  const FIELD_POINTER: nat := 3
  const FIELD_STRING_INLINE: nat := 4
  const FIELD_STRING_PTR: nat := 5

  /** What a pointer type leads to; only a base type behind aliases is looked at. */
  datatype Pointee = PointeeAlias(target: Option<Pointee>) | PointeeBase(name: string) | PointeeOther

  /** A type entry; None stands for a missing or dangling DW_AT_type. */
  datatype Die =
    | StructType(members: seq<Member>)
    | Alias(target: Option<Die>)               // typedef, const, volatile
    | PointerType(pointee: Option<Pointee>)
    | ArrayType(upperBound: Option<nat>)
    | BaseType(byteSize: Option<nat>)
    | OtherType

  datatype Member = Member(name: string, location: Option<nat>, typ: Option<Die>)

  datatype Field = Field(name: string, offset: nat, size: nat, kind: nat)

  /** The size of a type tree, for recursion through aliases. */
  function Size(d: Die): (n: nat)
    ensures n > 0
  {
    match d
    case StructType(members) => 1 + SizeAll(members)
    case Alias(Some(t)) => 1 + Size(t)
    case _ => 1
  }

  function SizeAll(members: seq<Member>): nat {
    if members == [] then 0
    else
      var last := members[|members| - 1];
      SizeAll(members[..|members| - 1]) + 1 + match last.typ case None => 0 case Some(d) => Size(d)
  }

  /** _get_base_type: None when the chain of aliases breaks off. */
  function Base(d: Die): (b: Option<Die>)
    ensures b.Some? ==> !b.value.Alias? && Size(b.value) <= Size(d)
  {
    match d
    case Alias(None) => None
    case Alias(Some(t)) => Base(t)
    case _ => Some(d)
  }

  /** n typedefs and qualifiers in front of a type, or of nothing. */
  function Aliased(target: Option<Die>, n: nat): Option<Die> {
    if n == 0 then target else Some(Alias(Aliased(target, n - 1)))
  }

  /** However long the chain of typedefs and qualifiers, what counts is what it ends in. */
  lemma {:induction false} BaseEndsTheChain(target: Option<Die>, n: nat)
    requires n > 0 && (target.Some? ==> !target.value.Alias?)
    ensures Base(Aliased(target, n).value) == target
  {
    if n > 1 {
      BaseEndsTheChain(target, n - 1);
    }
  }

  method GetBaseType(d: Die) returns (b: Option<Die>)
    ensures b == Base(d)
  {
    var current := Some(d);
    while current.Some? && current.value.Alias?
      invariant match current case None => Base(d) == None case Some(c) => Base(c) == Base(d)
      decreases if current.None? then 0 else Size(current.value)
    {
      current := current.value.target;
    }
    b := current;
  }

  function PointeeName(p: Pointee): Option<string> {
    match p
    case PointeeAlias(None) => None
    case PointeeAlias(Some(t)) => PointeeName(t)
    case PointeeBase(name) => Some(name)
    case PointeeOther => None
  }

  predicate Contains(s: string, w: string) {
    exists i | 0 <= i <= |s| :: w <= s[i..]
  }

  /** What a pointer leads to, behind n typedefs and qualifiers. */
  function PointeeAliased(target: Option<Pointee>, n: nat): Option<Pointee> {
    if n == 0 then target else Some(PointeeAlias(PointeeAliased(target, n - 1)))
  }

  lemma {:induction false} PointeeEndsTheChain(target: Option<Pointee>, n: nat)
    requires n > 0 && (target.Some? ==> !target.value.PointeeAlias?)
    ensures PointeeName(PointeeAliased(target, n).value) ==
            if target.Some? && target.value.PointeeBase? then Some(target.value.name) else None
  {
    if n > 1 {
      PointeeEndsTheChain(target, n - 1);
    }
  }

  /** A pointer to characters, by the name of the base type it leads to. */
  predicate LeadsToChars(base: Option<Die>) {
    && base.Some? && base.value.PointerType? && base.value.pointee.Some?
    && PointeeName(base.value.pointee.value).Some? && Contains(PointeeName(base.value.pointee.value).value, "char")
  }

  /** _map_to_c_type: kind and size of a leaf, for each kind exactly which types it stands for. */
  function MapToCType(base: Option<Die>): (r: (nat, nat))
    ensures r.0 <= FIELD_STRING_PTR
    ensures r == (FIELD_UINT8, 1) <==> base == Some(BaseType(Some(1)))
    ensures r == (FIELD_UINT16, 2) <==> base == Some(BaseType(Some(2)))
    ensures r == (FIELD_STRING_PTR, 4) <==> LeadsToChars(base)
    ensures r == (FIELD_POINTER, 4) <==> base.Some? && base.value.PointerType? && !LeadsToChars(base)
    ensures r.0 == FIELD_STRING_INLINE <==> base.Some? && base.value.ArrayType?
    ensures forall upper: nat :: base == Some(ArrayType(Some(upper))) ==> r.1 == upper + 1
    ensures base == Some(ArrayType(None)) ==> r.1 == 16
    ensures r.0 != FIELD_STRING_INLINE ==>
              r.1 == if r.0 == FIELD_UINT8 then 1 else if r.0 == FIELD_UINT16 then 2 else 4
  {
    match base
    case Some(PointerType(Some(p))) =>
      var name := PointeeName(p);
      if name.Some? && Contains(name.value, "char") then (FIELD_STRING_PTR, 4) else (FIELD_POINTER, 4)
    case Some(PointerType(None)) => (FIELD_POINTER, 4)
    case Some(ArrayType(upper)) => (FIELD_STRING_INLINE, if upper.Some? then upper.value + 1 else 16)
    case Some(BaseType(size)) =>
      if size == Some(1) then (FIELD_UINT8, 1)
      else if size == Some(2) then (FIELD_UINT16, 2)
      else (FIELD_UINT32, 4)
    case _ => (FIELD_UINT32, 4)
  }

  function Location(m: Member): nat {
    if m.location.Some? then m.location.value else 0
  }

  /** What one member adds, given what its structure flattens to. */
  function Flatten(members: seq<Member>, prefix: string, base: nat): seq<Field>
    decreases SizeAll(members)
  {
    if members == [] then []
    else
      var last := members[|members| - 1];
      Flatten(members[..|members| - 1], prefix, base) + FlattenMember(last, prefix, base)
  }

  function FlattenMember(m: Member, prefix: string, base: nat): seq<Field>
    decreases match m.typ case None => 0 case Some(d) => Size(d)
  {
    match m.typ
    case None => []
    case Some(d) =>
      var b := Base(d);
      if b.Some? && b.value.StructType? then
        Flatten(b.value.members, prefix + m.name + ".", base + Location(m))
      else
        var (kind, size) := MapToCType(b);
        [Field(prefix + m.name, base + Location(m), size, kind)]
  }

  /** _flatten_struct: the list of fields grows member by member. */
  method FlattenStruct(members: seq<Member>, prefix: string, base: nat) returns (fields: seq<Field>)
    ensures fields == Flatten(members, prefix, base)
    decreases SizeAll(members)
  {
    fields := [];
    for i := 0 to |members|
      invariant fields == Flatten(members[..i], prefix, base)
    {
      var child := members[i];
      assert members[..i + 1][..i] == members[..i];
      MemberIsSmaller(members, i);
      if child.typ.Some? {
        var fullName, absOffset := prefix + child.name, base + Location(child);
        var b := GetBaseType(child.typ.value);
        if b.Some? && b.value.StructType? {
          var nested := FlattenStruct(b.value.members, fullName + ".", absOffset);
          fields := fields + nested;
        } else {
          var (kind, size) := MapToCType(b);
          fields := fields + [Field(fullName, absOffset, size, kind)];
        }
      }
    }
    assert members[..|members|] == members;
  }

  lemma {:induction false} MemberIsSmaller(members: seq<Member>, i: nat)
    requires i < |members|
    ensures members[i].typ.Some? ==> Size(members[i].typ.value) < SizeAll(members)
  {
    if i < |members| - 1 {
      MemberIsSmaller(members[..|members| - 1], i);
    }
  }

  // ----- the meaning of a dotted name -----

  datatype Leaf = Leaf(offset: nat, size: nat, kind: nat)

  /** Walking down a path of member names: the offset is the sum of the locations on the way. */
  function Walk(members: seq<Member>, path: seq<string>): Option<Leaf>
    decreases |path|
  {
    if path == [] then None
    else
      var i := IndexOf(members, path[0]);
      if i == |members| || members[i].typ.None? then None
      else
        var m, b := members[i], Base(members[i].typ.value);
        if b.Some? && b.value.StructType? then
          match Walk(b.value.members, path[1..])
          case None => None
          case Some(leaf) => Some(leaf.(offset := Location(m) + leaf.offset))
        else if |path| == 1 then
          var (kind, size) := MapToCType(b);
          Some(Leaf(Location(m), size, kind))
        else None
  }

  function IndexOf(members: seq<Member>, name: string): (i: nat)
    ensures i <= |members|
    ensures i < |members| ==> members[i].name == name
    ensures forall k | 0 <= k < i :: members[k].name != name
  {
    if members == [] || members[0].name == name then 0 else 1 + IndexOf(members[1..], name)
  }

  function Join(path: seq<string>): string {
    if path == [] then "" else if |path| == 1 then path[0] else path[0] + "." + Join(path[1..])
  }

  predicate IsName(s: string) {
    s != "" && '.' !in s
  }

  /** Members of one structure have different names, without dots, all the way down. */
  ghost predicate WellNamed(members: seq<Member>)
    decreases SizeAll(members)
  {
    && (forall i, j | 0 <= i < j < |members| :: members[i].name != members[j].name)
    && (forall i | 0 <= i < |members| :: IsName(members[i].name) && (MemberIsSmaller(members, i); WellNamedBelow(members[i])))
  }

  ghost predicate WellNamedBelow(m: Member)
    decreases match m.typ case None => 0 case Some(d) => Size(d)
  {
    m.typ.Some? ==>
      var b := Base(m.typ.value);
      b.Some? && b.value.StructType? ==> WellNamed(b.value.members)
  }

  // ----- the members along a path -----

  /** The members the path leads through, each in the structure the one before it resolves to; the last one
      is a leaf. */
  predicate Chain(members: seq<Member>, path: seq<string>, ms: seq<Member>): (b: bool)
    ensures b ==> |ms| > 0 && ms[|ms| - 1].typ.Some?
    decreases |path|
  {
    && |ms| == |path| > 0
    && ms[0] in members && ms[0].name == path[0] && ms[0].typ.Some?
    && match Base(ms[0].typ.value)
       case Some(StructType(inner)) => Chain(inner, path[1..], ms[1..])
       case _ => |ms| == 1
  }

  /** The recorded locations added up; a member without one counts 0. */
  function LocationSum(ms: seq<Member>): nat {
    if ms == [] then 0
    else (match ms[0].location case Some(at) => at case None => 0) + LocationSum(ms[1..])
  }

  /** Walking a path ends at the leaf of its chain, at the sum of the recorded locations. */
  lemma {:induction false} ChainIsWalked(members: seq<Member>, path: seq<string>, ms: seq<Member>)
    requires WellNamed(members) && Chain(members, path, ms)
    ensures var (kind, size) := MapToCType(Base(ms[|ms| - 1].typ.value));
            Walk(members, path) == Some(Leaf(LocationSum(ms), size, kind))
    decreases |path|
  {
    hide MapToCType;
    var i := IndexOf(members, path[0]);
    var k :| 0 <= k < |members| && members[k] == ms[0];
    assert i == k;
    var b := Base(ms[0].typ.value);
    assert LocationSum(ms) == Location(ms[0]) + LocationSum(ms[1..]);
    if b.Some? && b.value.StructType? {
      assert WellNamedBelow(members[k]);
      ChainIsWalked(b.value.members, path[1..], ms[1..]);
      assert ms[1..][|ms| - 2] == ms[|ms| - 1];
    } else {
      assert LocationSum(ms[1..]) == 0;
    }
  }

  /** Every path that can be walked has such a chain. */
  lemma {:induction false} WalkedHasChain(members: seq<Member>, path: seq<string>) returns (ms: seq<Member>)
    requires Walk(members, path).Some?
    ensures Chain(members, path, ms)
    decreases |path|
  {
    var m := members[IndexOf(members, path[0])];
    match Base(m.typ.value)
    case Some(StructType(inner)) =>
      var more := WalkedHasChain(inner, path[1..]);
      ms := [m] + more;
      assert ms[1..] == more;
    case _ => ms := [m];
  }

  // ----- every path, once -----

  datatype Place = Place(path: seq<string>, leaf: Leaf)

  function Deeper(name: string, offset: nat, places: seq<Place>): (r: seq<Place>)
    ensures |r| == |places|
    ensures forall i | 0 <= i < |r| ::
              r[i] == Place([name] + places[i].path, places[i].leaf.(offset := offset + places[i].leaf.offset))
  {
    seq(|places|, i requires 0 <= i < |places| =>
      Place([name] + places[i].path, places[i].leaf.(offset := offset + places[i].leaf.offset)))
  }

  /** The paths to the leaves, in declaration order. */
  function Places(members: seq<Member>): seq<Place>
    decreases SizeAll(members)
  {
    if members == [] then []
    else Places(members[..|members| - 1]) + PlacesBelow(members[|members| - 1])
  }

  function PlacesBelow(m: Member): (places: seq<Place>)
    decreases match m.typ case None => 0 case Some(d) => Size(d)
    ensures forall i | 0 <= i < |places| :: |places[i].path| > 0 && places[i].path[0] == m.name
  {
    match m.typ
    case None => []
    case Some(d) =>
      var b := Base(d);
      if b.Some? && b.value.StructType? then Deeper(m.name, Location(m), Places(b.value.members))
      else
        var (kind, size) := MapToCType(b);
        [Place([m.name], Leaf(Location(m), size, kind))]
  }

  function SpellOne(place: Place, prefix: string, base: nat): Field {
    Field(prefix + Join(place.path), base + place.leaf.offset, place.leaf.size, place.leaf.kind)
  }

  function Spell(places: seq<Place>, prefix: string, base: nat): (r: seq<Field>)
    ensures |r| == |places|
    ensures forall i | 0 <= i < |r| :: r[i] == SpellOne(places[i], prefix, base)
  {
    seq(|places|, i requires 0 <= i < |places| => SpellOne(places[i], prefix, base))
  }

  lemma {:induction false} PlacesHavePaths(members: seq<Member>)
    ensures forall i | 0 <= i < |Places(members)| :: Places(members)[i].path != []
    decreases |members|
  {
    if members != [] {
      PlacesHavePaths(members[..|members| - 1]);
    }
  }

  /** The accumulated prefix and offset come to the path and the sum along it. */
  lemma {:induction false} FlattenSpells(members: seq<Member>, prefix: string, base: nat)
    ensures Flatten(members, prefix, base) == Spell(Places(members), prefix, base)
    decreases SizeAll(members)
  {
    hide MapToCType, Base, SpellOne;
    if members != [] {
      FlattenSpells(members[..|members| - 1], prefix, base);
      FlattenMemberSpells(members[|members| - 1], prefix, base);
    }
  }

  lemma {:induction false} FlattenMemberSpells(m: Member, prefix: string, base: nat)
    ensures FlattenMember(m, prefix, base) == Spell(PlacesBelow(m), prefix, base)
    decreases match m.typ case None => 0 case Some(d) => Size(d)
  {
    hide Flatten, MapToCType, Places;
    if m.typ.Some? {
      var b := Base(m.typ.value);
      if b.Some? && b.value.StructType? {
        FlattenSpells(b.value.members, prefix + m.name + ".", base + Location(m));
        PlacesHavePaths(b.value.members);
        DeeperSpells(m, Places(b.value.members), prefix, base);
      } else {
        assert Join([m.name]) == m.name;
      }
    }
  }

  /** Going one structure down lengthens the prefix by its name and moves the base by its location. */
  lemma DeeperSpells(m: Member, inner: seq<Place>, prefix: string, base: nat)
    requires forall i | 0 <= i < |inner| :: inner[i].path != []
    ensures Spell(inner, prefix + m.name + ".", base + Location(m)) ==
            Spell(Deeper(m.name, Location(m), inner), prefix, base)
  {
    hide Location;
    forall i | 0 <= i < |inner|
      ensures SpellOne(inner[i], prefix + m.name + ".", base + Location(m)) ==
              SpellOne(Deeper(m.name, Location(m), inner)[i], prefix, base)
    {
      var rest := Join(inner[i].path);
      JoinOneMore(m.name, inner[i].path);
      assert prefix + m.name + "." + rest == prefix + (m.name + "." + rest);
    }
  }

  lemma JoinOneMore(name: string, path: seq<string>)
    requires path != []
    ensures Join([name] + path) == name + "." + Join(path)
  {
    assert ([name] + path)[1..] == path;
  }

  lemma {:induction false} PlacesByMember(members: seq<Member>, place: Place)
    ensures place in Places(members) <==> exists i | 0 <= i < |members| :: place in PlacesBelow(members[i])
    decreases |members|
  {
    hide PlacesBelow;
    if members != [] {
      var init := members[..|members| - 1];
      PlacesByMember(init, place);
      assert place in Places(members) <==> place in Places(init) || place in PlacesBelow(members[|members| - 1]);
      if place in Places(init) {
        var i :| 0 <= i < |init| && place in PlacesBelow(init[i]);
        assert place in PlacesBelow(members[i]);
      }
      if i :| 0 <= i < |members| && place in PlacesBelow(members[i]) {
        assert i < |init| ==> place in PlacesBelow(init[i]);
      }
    }
  }

  /** A path is listed with a leaf exactly if walking it ends at that leaf. */
  lemma {:induction false} ListedIffWalked(members: seq<Member>, path: seq<string>, leaf: Leaf)
    requires WellNamed(members)
    ensures Place(path, leaf) in Places(members) <==> Walk(members, path) == Some(leaf)
    decreases SizeAll(members), 1
  {
    hide Places, PlacesBelow, Walk, WellNamedBelow;
    PlacesByMember(members, Place(path, leaf));
    if path != [] {
      var i := IndexOf(members, path[0]);
      if i < |members| {
        ListedBelowIffWalked(members, i, path, leaf);
        assert forall k | 0 <= k < |members| && Place(path, leaf) in PlacesBelow(members[k]) :: k == i;
      } else {
        assert Walk(members, path) == None by { WalkNowhere(members, path); }
      }
    } else {
      assert Walk(members, path) == None by { WalkNowhere(members, path); }
    }
  }

  lemma WalkNowhere(members: seq<Member>, path: seq<string>)
    requires path == [] || IndexOf(members, path[0]) == |members|
    ensures Walk(members, path) == None
  {
  }

  lemma {:induction false} ListedBelowIffWalked(members: seq<Member>, i: nat, path: seq<string>, leaf: Leaf)
    requires WellNamed(members) && path != [] && i < |members| && i == IndexOf(members, path[0])
    ensures Place(path, leaf) in PlacesBelow(members[i]) <==> Walk(members, path) == Some(leaf)
    decreases SizeAll(members), 0
  {
    hide Places, MapToCType, IndexOf, Location;
    var m := members[i];
    MemberIsSmaller(members, i);
    if m.typ.Some? {
      var b := Base(m.typ.value);
      if b.Some? && b.value.StructType? {
        assert WellNamedBelow(m);
        var inner := b.value.members;
        hide WellNamed, WellNamedBelow;
        InDeeperIff(m.name, Location(m), Places(inner), path, leaf);
        if leaf.offset >= Location(m) {
          ListedIffWalked(inner, path[1..], leaf.(offset := leaf.offset - Location(m)));
        }
      } else {
        assert path == [m.name] <==> |path| == 1;
      }
    }
  }

  /** A path is listed one structure up exactly if its rest is listed below, the offset less the location. */
  lemma InDeeperIff(name: string, offset: nat, inner: seq<Place>, path: seq<string>, leaf: Leaf)
    requires path != [] && path[0] == name
    ensures Place(path, leaf) in Deeper(name, offset, inner) <==>
            leaf.offset >= offset && Place(path[1..], leaf.(offset := leaf.offset - offset)) in inner
  {
    var deep := Deeper(name, offset, inner);
    assert path == [name] + path[1..];
    if leaf.offset >= offset && Place(path[1..], leaf.(offset := leaf.offset - offset)) in inner {
      var k :| 0 <= k < |inner| && inner[k] == Place(path[1..], leaf.(offset := leaf.offset - offset));
      assert deep[k] == Place(path, leaf);
    }
    if Place(path, leaf) in deep {
      var k :| 0 <= k < |deep| && deep[k] == Place(path, leaf);
      assert ([name] + inner[k].path)[1..] == inner[k].path;
      assert inner[k] == Place(path[1..], leaf.(offset := leaf.offset - offset));
    }
  }

  // ----- unique names -----

  ghost predicate DistinctPaths(places: seq<Place>) {
    forall i, j | 0 <= i < j < |places| :: places[i].path != places[j].path
  }

  lemma {:induction false} PathsAreDistinct(members: seq<Member>)
    requires WellNamed(members)
    ensures DistinctPaths(Places(members))
    decreases SizeAll(members), 1
  {
    if members != [] {
      var init, last := members[..|members| - 1], members[|members| - 1];
      assert WellNamedBelow(last);
      WellNamedPrefix(members);
      PathsAreDistinct(init);
      MemberIsSmaller(members, |members| - 1);
      PathsBelowAreDistinct(last);
      hide PlacesBelow, WellNamedBelow;
      forall place | place in Places(init) ensures place.path != [] && place.path[0] != last.name {
        PlacesByMember(init, place);
      }
    }
  }

  lemma WellNamedPrefix(members: seq<Member>)
    requires WellNamed(members) && members != []
    ensures WellNamed(members[..|members| - 1])
  {
    hide WellNamedBelow;
  }

  lemma {:induction false} PathsBelowAreDistinct(m: Member)
    requires WellNamedBelow(m)
    ensures DistinctPaths(PlacesBelow(m))
    decreases match m.typ case None => 0 case Some(d) => Size(d), 0
  {
    if m.typ.Some? {
      var b := Base(m.typ.value);
      if b.Some? && b.value.StructType? {
        var inner := Places(b.value.members);
        PathsAreDistinct(b.value.members);
        var deep := Deeper(m.name, Location(m), inner);
        forall i, j | 0 <= i < j < |deep| ensures deep[i].path != deep[j].path {
          assert deep[i].path[1..] == inner[i].path && deep[j].path[1..] == inner[j].path;
        }
      }
    }
  }

  predicate AreNames(path: seq<string>) {
    path != [] && forall i | 0 <= i < |path| :: IsName(path[i])
  }

  lemma {:induction false} WalkedAreNames(members: seq<Member>, path: seq<string>)
    requires WellNamed(members) && Walk(members, path).Some?
    ensures AreNames(path)
    decreases |path|
  {
    var i := IndexOf(members, path[0]);
    var b := Base(members[i].typ.value);
    assert IsName(members[i].name) && WellNamedBelow(members[i]);
    if b.Some? && b.value.StructType? {
      WalkedAreNames(b.value.members, path[1..]);
      assert path == [path[0]] + path[1..];
    } else {
      assert path == [path[0]];
    }
  }

  /** Names without dots can be told apart when joined with dots. */
  lemma {:induction false} JoinIsInjective(p: seq<string>, q: seq<string>)
    requires AreNames(p) && AreNames(q) && Join(p) == Join(q)
    ensures p == q
  {
    JoinHead(p);
    JoinHead(q);
    assert p[0] == q[0];
    if |p| > 1 {
      assert Join(p) == (p[0] + ".") + Join(p[1..]) && Join(q) == (p[0] + ".") + Join(q[1..]);
      assert Join(p)[|p[0]| + 1..] == Join(p[1..]) && Join(q)[|p[0]| + 1..] == Join(q[1..]);
      assert AreNames(p[1..]) && AreNames(q[1..]);
      JoinIsInjective(p[1..], q[1..]);
      assert p == [p[0]] + p[1..] && q == [q[0]] + q[1..];
    } else {
      assert p == [p[0]] && q == [q[0]];
    }
  }

  /** The first dot of a joined name ends its first component. */
  function UpToDot(s: string): string {
    if s == "" || s[0] == '.' then "" else [s[0]] + UpToDot(s[1..])
  }

  lemma JoinHead(p: seq<string>)
    requires AreNames(p)
    ensures UpToDot(Join(p)) == p[0] && (|p| == 1 <==> |Join(p)| == |p[0]|)
  {
    hide UpToDot;
    assert IsName(p[0]);
    if |p| == 1 {
      UpToDotOf(p[0], "");
      assert p[0] + "" == p[0];
    } else {
      var tail := "." + Join(p[1..]);
      assert Join(p) == p[0] + tail;
      hide Join;
      UpToDotOf(p[0], tail);
    }
  }

  lemma {:induction false} UpToDotOf(s: string, tail: string)
    requires '.' !in s && (tail == "" || tail[0] == '.')
    ensures UpToDot(s + tail) == s
  {
    if s == "" {
      assert s + tail == tail;
    } else {
      assert (s + tail)[1..] == s[1..] + tail;
      UpToDotOf(s[1..], tail);
      assert s == [s[0]] + s[1..];
    }
  }

  /** The value of the first field with a name, as the loader looks it up. */
  function FieldNamed(fields: seq<Field>, name: string): Option<Field> {
    if fields == [] then None
    else if fields[0].name == name then Some(fields[0])
    else FieldNamed(fields[1..], name)
  }

  ghost predicate UniqueNames(fields: seq<Field>) {
    forall i, j | 0 <= i < j < |fields| :: fields[i].name != fields[j].name
  }

  lemma {:induction false} FieldAt(fields: seq<Field>, k: nat)
    requires UniqueNames(fields) && k < |fields|
    ensures FieldNamed(fields, fields[k].name) == Some(fields[k])
  {
    if k > 0 {
      FieldAt(fields[1..], k - 1);
    }
  }

  lemma {:induction false} FieldNamedIsThere(fields: seq<Field>, name: string)
    ensures FieldNamed(fields, name).Some? ==>
              FieldNamed(fields, name).value in fields && FieldNamed(fields, name).value.name == name
  {
    if fields != [] && fields[0].name != name {
      FieldNamedIsThere(fields[1..], name);
    }
  }

  /** Flattened names are unique. */
  lemma FlattenedNamesAreUnique(members: seq<Member>)
    requires WellNamed(members)
    ensures UniqueNames(Flatten(members, "", 0))
  {
    hide Flatten, Places, Walk, WellNamed, AreNames, Join;
    FlattenSpells(members, "", 0);
    PathsAreDistinct(members);
    var places, fields := Places(members), Flatten(members, "", 0);
    forall i, j | 0 <= i < j < |fields| ensures fields[i].name != fields[j].name {
      ListedIffWalked(members, places[i].path, places[i].leaf);
      ListedIffWalked(members, places[j].path, places[j].leaf);
      WalkedAreNames(members, places[i].path);
      WalkedAreNames(members, places[j].path);
      assert fields[i].name == Join(places[i].path) && fields[j].name == Join(places[j].path);
      if Join(places[i].path) == Join(places[j].path) {
        JoinIsInjective(places[i].path, places[j].path);
      }
    }
  }

  /** Flattening keeps the meaning: the field found under a dotted path is the leaf that walking the path
      ends at, and its offset the sum along it; a path that ends at no leaf names no field. */
  lemma FlattenKeepsMeaning(members: seq<Member>, path: seq<string>)
    requires WellNamed(members) && AreNames(path)
    ensures FieldNamed(Flatten(members, "", 0), Join(path)) ==
            match Walk(members, path)
            case None => None
            case Some(leaf) => Some(Field(Join(path), leaf.offset, leaf.size, leaf.kind))
  {
    hide Flatten, Places, Walk, WellNamed, AreNames, Join;
    FlattenSpells(members, "", 0);
    FlattenedNamesAreUnique(members);
    var places, fields := Places(members), Flatten(members, "", 0);
    match Walk(members, path)
    case Some(leaf) =>
      ListedIffWalked(members, path, leaf);
      var k :| 0 <= k < |places| && places[k] == Place(path, leaf);
      assert "" + Join(path) == Join(path);
      FieldAt(fields, k);
    case None =>
      FieldNamedIsThere(fields, Join(path));
      if FieldNamed(fields, Join(path)).Some? {
        var k :| 0 <= k < |fields| && fields[k] == FieldNamed(fields, Join(path)).value;
        ListedIffWalked(members, places[k].path, places[k].leaf);
        WalkedAreNames(members, places[k].path);
        assert fields[k].name == Join(places[k].path);
        JoinIsInjective(places[k].path, path);
        assert false;
      }
  }

  /** The field found under a dotted path lies at the sum of the locations recorded for the members along it,
      with the kind and size of the last one's type; and each path to a leaf has such members. */
  lemma OffsetIsTheSum(members: seq<Member>, path: seq<string>, ms: seq<Member>)
    requires WellNamed(members) && Chain(members, path, ms)
    ensures var (kind, size) := MapToCType(Base(ms[|ms| - 1].typ.value));
            FieldNamed(Flatten(members, "", 0), Join(path)) == Some(Field(Join(path), LocationSum(ms), size, kind))
  {
    hide Flatten, WellNamed, Join, MapToCType, LocationSum, Walk;
    ChainIsWalked(members, path, ms);
    WalkedAreNames(members, path);
    FlattenKeepsMeaning(members, path);
  }
}
