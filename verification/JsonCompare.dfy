// cJSON_Compare against equality of trees with objects as unordered maps.
module JsonCompare {
  import opened Bytes
  import opened JsonSpec

  // --- Keys

  function ToLower(b: byte): byte {
    if 0x41 <= b <= 0x5A then b + 0x20 else b
  }

  function Lowered(s: seq<byte>): (r: seq<byte>)
    ensures |r| == |s| && forall i | 0 <= i < |s| :: r[i] == ToLower(s[i])
  {
    if s == [] then [] else [ToLower(s[0])] + Lowered(s[1..])
  }

  // The same byte, or a letter of ASCII in its two cases.
  predicate SameLetter(a: byte, b: byte) {
    a == b || (0x41 <= a <= 0x5A && b == a + 0x20) || (0x41 <= b <= 0x5A && a == b + 0x20)
  }

  predicate SameName(s: seq<byte>, t: seq<byte>, caseSensitive: bool) {
    if caseSensitive then s == t
    else |s| == |t| && forall i | 0 <= i < |s| :: SameLetter(s[i], t[i])
  }

  lemma LowerForm(a: byte, b: byte)
    ensures ToLower(a) == ToLower(b) <==> SameLetter(a, b)
  {
  }

  // Folding identifies exactly the names that differ in the case of letters only.
  lemma FoldForm(s: seq<byte>, t: seq<byte>, caseSensitive: bool)
    ensures Fold(s, caseSensitive) == Fold(t, caseSensitive) <==> SameName(s, t, caseSensitive)
  {
    hide ToLower, Lowered, SameLetter;
    if !caseSensitive && |s| == |t| {
      var x, y := Lowered(s), Lowered(t);
      forall i | 0 <= i < |s|
        ensures x[i] == y[i] <==> SameLetter(s[i], t[i])
      {
        LowerForm(s[i], t[i]);
      }
    }
  }

  // Two names are the same when their folded forms are.
  function Fold(s: seq<byte>, caseSensitive: bool): seq<byte> {
    if caseSensitive then s else Lowered(s)
  }

  // The byte of a C string at position i.
  function CharAt(s: seq<byte>, i: nat): byte
    requires i <= |s|
  {
    if i < |s| then s[i] else 0
  }

  method CaseInsensitiveStrcmp(string1: seq<byte>, string2: seq<byte>) returns (difference: int)
    requires 0 !in string1 && 0 !in string2
    ensures difference == 0 <==> SameName(string1, string2, false)
    ensures difference == 0 <==> Lowered(string1) == Lowered(string2)
  {
    FoldForm(string1, string2, false);
    hide SameName;
    var i := 0;
    while ToLower(CharAt(string1, i)) == ToLower(CharAt(string2, i))
      invariant 0 <= i <= |string1| && i <= |string2|
      invariant forall k | 0 <= k < i :: ToLower(string1[k]) == ToLower(string2[k])
      decreases |string1| - i
    {
      if CharAt(string1, i) == 0 {
        return 0;
      }
      i := i + 1;
    }
    if i < |string1| && i < |string2| {
      assert Lowered(string1)[i] != Lowered(string2)[i];
    }
    difference := ToLower(CharAt(string1, i)) - ToLower(CharAt(string2, i));
  }

  // The first member of that name.
  function Find(members: seq<Member>, name: seq<byte>, caseSensitive: bool): (j: Option<nat>)
    ensures j.Some? ==> j.value < |members| && Fold(members[j.value].key, caseSensitive) == Fold(name, caseSensitive)
    ensures j.None? ==>
      forall k | 0 <= k < |members| :: Fold(members[k].key, caseSensitive) != Fold(name, caseSensitive)
  {
    if members == [] then None
    else if Fold(members[0].key, caseSensitive) == Fold(name, caseSensitive) then Some(0)
    else
      match Find(members[1..], name, caseSensitive)
      case None => None
      case Some(j) => Some(j + 1)
  }

  function Behind(i: nat, j: Option<nat>): Option<nat> {
    match j
    case None => None
    case Some(k) => Some(i + k)
  }

  lemma SearchStarts(members: seq<Member>, name: seq<byte>, caseSensitive: bool)
    ensures Find(members, name, caseSensitive) == Behind(0, Find(members[0..], name, caseSensitive))
    ensures Find(members[|members|..], name, caseSensitive) == None
  {
    assert members[0..] == members;
  }

  lemma SearchStep(members: seq<Member>, i: nat, name: seq<byte>, caseSensitive: bool)
    requires i < |members|
    ensures Behind(i, Find(members[i..], name, caseSensitive)) ==
      if Fold(members[i].key, caseSensitive) == Fold(name, caseSensitive) then Some(i)
      else Behind(i + 1, Find(members[i + 1..], name, caseSensitive))
  {
    hide Fold;
    assert members[i..][1..] == members[i + 1..];
  }

  // get_object_item
  method GetObjectItem(members: seq<Member>, name: seq<byte>, caseSensitive: bool) returns (j: Option<nat>)
    requires 0 !in name && forall k | 0 <= k < |members| :: 0 !in members[k].key
    ensures j == Find(members, name, caseSensitive)
    ensures j.Some? ==> j.value < |members| && SameName(members[j.value].key, name, caseSensitive)
    ensures forall k | 0 <= k < (if j.Some? then j.value else |members|) ::
      !SameName(members[k].key, name, caseSensitive)
  {
    hide Find, Fold, SameName;
    var i := 0;
    SearchStarts(members, name, caseSensitive);
    while i < |members|
      invariant 0 <= i <= |members|
      invariant Find(members, name, caseSensitive) == Behind(i, Find(members[i..], name, caseSensitive))
      invariant forall k | 0 <= k < i :: !SameName(members[k].key, name, caseSensitive)
    {
      SearchStep(members, i, name, caseSensitive);
      FoldForm(members[i].key, name, caseSensitive);
      NamesEqual(members[i].key, name, caseSensitive);
      var found;
      if caseSensitive {
        found := name == members[i].key;
      } else {
        var difference := CaseInsensitiveStrcmp(name, members[i].key);
        found := difference == 0;
      }
      if found {
        return Some(i);
      }
      i := i + 1;
    }
    j := None;
  }

  lemma NamesEqual(s: seq<byte>, t: seq<byte>, caseSensitive: bool)
    ensures SameName(s, t, caseSensitive) == SameName(t, s, caseSensitive)
    ensures caseSensitive ==> (SameName(s, t, caseSensitive) <==> s == t)
  {
  }

  // --- What cJSON_Compare computes

  // All keys are C strings.
  predicate KeysInMemory(v: Json)
    decreases v
  {
    match v
    case Array(items) => forall i | 0 <= i < |items| :: KeysInMemory(items[i])
    case Object(members) => forall i | 0 <= i < |members| :: 0 !in members[i].key && KeysInMemory(members[i].value)
    case _ => true
  }

  function Size(v: Json): (n: nat)
    ensures n > 0
    decreases v
  {
    match v
    case Array(items) => 1 + ItemsSize(items)
    case Object(members) => 1 + MembersSize(members)
    case _ => 1
  }

  function ItemsSize(items: seq<Json>): nat
    decreases items
  {
    if items == [] then 0 else Size(items[0]) + ItemsSize(items[1..])
  }

  function MembersSize(members: seq<Member>): (n: nat)
    ensures forall i | 0 <= i < |members| :: Size(members[i].value) <= n
    decreases members
  {
    if members == [] then 0
    else
      assert forall i | 1 <= i < |members| :: members[i] == members[1..][i - 1];
      Size(members[0].value) + MembersSize(members[1..])
  }

  predicate Compared(a: Json, b: Json, caseSensitive: bool)
    decreases Size(a) + Size(b), 0
  {
    match (a, b)
    case (Null, Null) => true
    case (False, False) => true
    case (True, True) => true
    case (Number(x), Number(y)) => x == y
    case (String(x), String(y)) => x == y
    case (Array(xs), Array(ys)) => ItemsCompared(xs, ys, caseSensitive)
    case (Object(ms), Object(ns)) => Covered(ms, ns, caseSensitive) && Covered(ns, ms, caseSensitive)
    case _ => false
  }

  predicate ItemsCompared(xs: seq<Json>, ys: seq<Json>, caseSensitive: bool)
    decreases ItemsSize(xs) + ItemsSize(ys), 1
  {
    if xs == [] || ys == [] then xs == [] && ys == []
    else Compared(xs[0], ys[0], caseSensitive) && ItemsCompared(xs[1..], ys[1..], caseSensitive)
  }

  // Every member of ms compares equal to the first member of ns with its name.
  predicate Covered(ms: seq<Member>, ns: seq<Member>, caseSensitive: bool)
    decreases MembersSize(ms) + MembersSize(ns), 1
  {
    if ms == [] then true
    else
      var j := Find(ns, ms[0].key, caseSensitive);
      j.Some? && Compared(ms[0].value, ns[j.value].value, caseSensitive) && Covered(ms[1..], ns, caseSensitive)
  }

  method Compare(a: Json, b: Json, caseSensitive: bool) returns (same: bool)
    requires KeysInMemory(a) && KeysInMemory(b)
    ensures same == Compared(a, b, caseSensitive)
    decreases Size(a) + Size(b), 0
  {
    match (a, b)
    case (Null, Null) => same := true;
    case (False, False) => same := true;
    case (True, True) => same := true;
    case (Number(x), Number(y)) => same := x == y;
    case (String(x), String(y)) => same := x == y;
    case (Array(xs), Array(ys)) =>
      var i := 0;
      while i < |xs| && i < |ys|
        invariant 0 <= i <= |xs| && i <= |ys|
        invariant ItemsSize(xs[i..]) <= ItemsSize(xs) && ItemsSize(ys[i..]) <= ItemsSize(ys)
        invariant ItemsCompared(xs, ys, caseSensitive) == ItemsCompared(xs[i..], ys[i..], caseSensitive)
      {
        assert xs[i..][1..] == xs[i + 1..] && ys[i..][1..] == ys[i + 1..];
        var equal := Compare(xs[i], ys[i], caseSensitive);
        if !equal {
          return false;
        }
        i := i + 1;
      }
      same := i == |xs| && i == |ys|;
    case (Object(ms), Object(ns)) =>
      same := CompareMembers(ms, ns, caseSensitive);
      if same {
        same := CompareMembers(ns, ms, caseSensitive);
      }
    case _ => same := false;
  }

  // One of the two loops over the members of an object.
  method CompareMembers(ms: seq<Member>, ns: seq<Member>, caseSensitive: bool) returns (same: bool)
    requires KeysInMemory(Object(ms)) && KeysInMemory(Object(ns))
    ensures same == Covered(ms, ns, caseSensitive)
    decreases MembersSize(ms) + MembersSize(ns), 1
  {
    hide Compared, Find, Fold, Size, MembersSize;
    var i := 0;
    while i < |ms|
      invariant 0 <= i <= |ms|
      invariant Covered(ms, ns, caseSensitive) == Covered(ms[i..], ns, caseSensitive)
    {
      assert ms[i..][1..] == ms[i + 1..];
      var j := GetObjectItem(ns, ms[i].key, caseSensitive);
      if j.None? {
        return false;
      }
      var equal := Compare(ms[i].value, ns[j.value].value, caseSensitive);
      if !equal {
        return false;
      }
      i := i + 1;
    }
    same := true;
  }

  // cJSON_Duplicate on values: a copy, or with recurse off a copy without children.
  method Duplicate(v: Json, recurse: bool) returns (copy: Json)
    ensures copy == if recurse then v else if v.Array? then Array([]) else if v.Object? then Object([]) else v
    decreases v
  {
    match v
    case Array(items) =>
      var copies: seq<Json> := [];
      if recurse {
        for i := 0 to |items|
          invariant copies == items[..i]
        {
          var item := Duplicate(items[i], true);
          copies := copies + [item];
        }
      }
      copy := Array(copies);
    case Object(members) =>
      var copies: seq<Member> := [];
      if recurse {
        for i := 0 to |members|
          invariant copies == members[..i]
        {
          var value := Duplicate(members[i].value, true);
          copies := copies + [Member(members[i].key, value)];
        }
      }
      copy := Object(copies);
    case _ => copy := v;
  }

  // --- Trees with objects as maps

  datatype Canon =
    | CNull
    | CFalse
    | CTrue
    | CNumber(text: seq<byte>)
    | CString(s: seq<byte>)
    | CArray(items: seq<Canon>)
    | CObject(members: map<seq<byte>, Canon>)

  function Canonical(v: Json, caseSensitive: bool): Canon
    decreases v
  {
    match v
    case Null => CNull
    case False => CFalse
    case True => CTrue
    case Number(text) => CNumber(text)
    case String(s) => CString(s)
    case Array(items) => CArray(CanonicalItems(items, caseSensitive))
    case Object(members) => CObject(CanonicalMembers(members, caseSensitive))
  }

  function CanonicalItems(items: seq<Json>, caseSensitive: bool): (c: seq<Canon>)
    ensures |c| == |items|
    decreases items
  {
    if items == [] then []
    else [Canonical(items[0], caseSensitive)] + CanonicalItems(items[1..], caseSensitive)
  }

  // The first member of a name counts.
  function CanonicalMembers(members: seq<Member>, caseSensitive: bool): map<seq<byte>, Canon>
    decreases members
  {
    if members == [] then map[]
    else
      CanonicalMembers(members[1..], caseSensitive)[
        Fold(members[0].key, caseSensitive) := Canonical(members[0].value, caseSensitive)]
  }

  // Members of the same name have equal values, at every level.
  predicate Consistent(v: Json, caseSensitive: bool)
    decreases v
  {
    match v
    case Array(items) => forall i | 0 <= i < |items| :: Consistent(items[i], caseSensitive)
    case Object(members) => forall i | 0 <= i < |members| :: ConsistentAt(members, i, caseSensitive)
    case _ => true
  }

  predicate ConsistentAt(ms: seq<Member>, i: nat, caseSensitive: bool)
    requires i < |ms|
    decreases ms
  {
    && Consistent(ms[i].value, caseSensitive)
    && forall k | 0 <= k < i && Fold(ms[k].key, caseSensitive) == Fold(ms[i].key, caseSensitive) ::
         Canonical(ms[k].value, caseSensitive) == Canonical(ms[i].value, caseSensitive)
  }

  // No object has two members of the same name.
  predicate DistinctKeys(v: Json, caseSensitive: bool)
    decreases v
  {
    match v
    case Array(items) => forall i | 0 <= i < |items| :: DistinctKeys(items[i], caseSensitive)
    case Object(members) =>
      && (forall i | 0 <= i < |members| :: DistinctKeys(members[i].value, caseSensitive))
      && forall i, k | 0 <= k < i < |members| ::
           Fold(members[k].key, caseSensitive) != Fold(members[i].key, caseSensitive)
    case _ => true
  }

  lemma {:induction false} DistinctIsConsistent(v: Json, caseSensitive: bool)
    requires DistinctKeys(v, caseSensitive)
    ensures Consistent(v, caseSensitive)
    decreases v
  {
    match v
    case Array(items) =>
      forall i | 0 <= i < |items| ensures Consistent(items[i], caseSensitive) {
        DistinctIsConsistent(items[i], caseSensitive);
      }
    case Object(members) =>
      forall i | 0 <= i < |members| ensures ConsistentAt(members, i, caseSensitive) {
        DistinctIsConsistent(members[i].value, caseSensitive);
      }
    case _ =>
  }

  // Looking a name up in the map is finding the first member of that name.
  lemma {:induction false} FindIsLookup(ms: seq<Member>, name: seq<byte>, caseSensitive: bool)
    ensures var m, k := CanonicalMembers(ms, caseSensitive), Fold(name, caseSensitive);
      var j := Find(ms, name, caseSensitive);
      && (k in m <==> j.Some?)
      && (j.Some? ==> m[k] == Canonical(ms[j.value].value, caseSensitive))
  {
    hide Canonical, Fold;
    if ms != [] {
      FindIsLookup(ms[1..], name, caseSensitive);
    }
  }

  lemma {:induction false} KeyHasMember(ms: seq<Member>, k: seq<byte>, caseSensitive: bool) returns (i: nat)
    requires k in CanonicalMembers(ms, caseSensitive)
    ensures i < |ms| && Fold(ms[i].key, caseSensitive) == k
    ensures CanonicalMembers(ms, caseSensitive)[k] == Canonical(ms[i].value, caseSensitive)
  {
    hide Canonical, Fold;
    if Fold(ms[0].key, caseSensitive) == k {
      i := 0;
    } else {
      var i' := KeyHasMember(ms[1..], k, caseSensitive);
      i := i' + 1;
    }
  }

  // A member agrees with the first member of its name in m, and so do the objects inside.
  ghost predicate Agrees(m: Member, ns: seq<Member>, caseSensitive: bool) {
    var j := Find(ns, m.key, caseSensitive);
    && j.Some? && Canonical(m.value, caseSensitive) == Canonical(ns[j.value].value, caseSensitive)
    && Consistent(m.value, caseSensitive) && Consistent(ns[j.value].value, caseSensitive)
  }

  ghost predicate AllAgree(ms: seq<Member>, ns: seq<Member>, caseSensitive: bool) {
    forall i | 0 <= i < |ms| :: Agrees(ms[i], ns, caseSensitive)
  }

  ghost predicate ConsistentMembers(ms: seq<Member>, caseSensitive: bool) {
    forall i | 0 <= i < |ms| :: ConsistentAt(ms, i, caseSensitive)
  }

  // cJSON_Compare on separate trees, for all trees: it holds exactly if they are equal with objects
  // as unordered maps, and neither has members of one name with different values.
  lemma {:induction false} ComparedExactly(a: Json, b: Json, caseSensitive: bool)
    ensures Compared(a, b, caseSensitive)
      <==> Canonical(a, caseSensitive) == Canonical(b, caseSensitive)
           && Consistent(a, caseSensitive) && Consistent(b, caseSensitive)
    decreases Size(a) + Size(b), 0
  {
    hide ItemsCompared, Covered, CanonicalItems, CanonicalMembers, Fold;
    if a.Array? && b.Array? {
      hide Consistent, Compared;
      ItemsComparedExactly(a.items, b.items, caseSensitive);
      ConsistentArray(a.items, caseSensitive);
      ConsistentArray(b.items, caseSensitive);
      ArraysCompared(a.items, b.items, caseSensitive);
    } else if a.Object? && b.Object? {
      hide Consistent, ConsistentMembers, AllAgree, Compared;
      CoveredExactly(a.members, b.members, caseSensitive);
      CoveredExactly(b.members, a.members, caseSensitive);
      AgreeBothWays(a.members, b.members, caseSensitive);
      ConsistentObject(a.members, caseSensitive);
      ConsistentObject(b.members, caseSensitive);
      ObjectsCompared(a.members, b.members, caseSensitive);
    }
  }

  lemma ArraysCompared(xs: seq<Json>, ys: seq<Json>, caseSensitive: bool)
    ensures Compared(Array(xs), Array(ys), caseSensitive) == ItemsCompared(xs, ys, caseSensitive)
  {
    hide ItemsCompared;
  }

  lemma ObjectsCompared(ms: seq<Member>, ns: seq<Member>, caseSensitive: bool)
    ensures Compared(Object(ms), Object(ns), caseSensitive)
         == (Covered(ms, ns, caseSensitive) && Covered(ns, ms, caseSensitive))
  {
    hide Covered;
  }

  lemma ConsistentArray(xs: seq<Json>, caseSensitive: bool)
    ensures Consistent(Array(xs), caseSensitive) <==> forall i | 0 <= i < |xs| :: Consistent(xs[i], caseSensitive)
  {
  }

  lemma ConsistentObject(ms: seq<Member>, caseSensitive: bool)
    ensures Consistent(Object(ms), caseSensitive) <==> ConsistentMembers(ms, caseSensitive)
  {
    hide ConsistentAt;
  }

  lemma {:induction false} ItemsComparedExactly(xs: seq<Json>, ys: seq<Json>, caseSensitive: bool)
    ensures ItemsCompared(xs, ys, caseSensitive)
      <==> CanonicalItems(xs, caseSensitive) == CanonicalItems(ys, caseSensitive)
           && (forall i | 0 <= i < |xs| :: Consistent(xs[i], caseSensitive))
           && (forall i | 0 <= i < |ys| :: Consistent(ys[i], caseSensitive))
    decreases ItemsSize(xs) + ItemsSize(ys), 1
  {
    hide Compared, Canonical, Consistent;
    if xs != [] && ys != [] {
      ComparedExactly(xs[0], ys[0], caseSensitive);
      ItemsComparedExactly(xs[1..], ys[1..], caseSensitive);
      AllOfTail(xs, caseSensitive);
      AllOfTail(ys, caseSensitive);
      ItemsEqual(xs, ys, caseSensitive);
    }
  }

  lemma AllOfTail(xs: seq<Json>, caseSensitive: bool)
    requires xs != []
    ensures (forall i | 0 <= i < |xs| :: Consistent(xs[i], caseSensitive))
      <==> Consistent(xs[0], caseSensitive) && forall i | 0 <= i < |xs[1..]| :: Consistent(xs[1..][i], caseSensitive)
  {
    hide Consistent;
    assert forall i | 1 <= i < |xs| :: xs[i] == xs[1..][i - 1];
  }

  lemma ItemsEqual(xs: seq<Json>, ys: seq<Json>, caseSensitive: bool)
    requires xs != [] && ys != []
    ensures CanonicalItems(xs, caseSensitive) == CanonicalItems(ys, caseSensitive)
      <==> Canonical(xs[0], caseSensitive) == Canonical(ys[0], caseSensitive)
           && CanonicalItems(xs[1..], caseSensitive) == CanonicalItems(ys[1..], caseSensitive)
  {
    hide Canonical;
    var x, y := CanonicalItems(xs, caseSensitive), CanonicalItems(ys, caseSensitive);
    assert x[0] == Canonical(xs[0], caseSensitive) && y[0] == Canonical(ys[0], caseSensitive);
    assert x[1..] == CanonicalItems(xs[1..], caseSensitive) && y[1..] == CanonicalItems(ys[1..], caseSensitive);
  }

  lemma {:induction false} CoveredExactly(ms: seq<Member>, ns: seq<Member>, caseSensitive: bool)
    ensures Covered(ms, ns, caseSensitive) <==> AllAgree(ms, ns, caseSensitive)
    decreases MembersSize(ms) + MembersSize(ns), 1
  {
    hide Compared, Canonical, Consistent, Find, Fold;
    if ms != [] {
      var j := Find(ns, ms[0].key, caseSensitive);
      if j.Some? {
        ComparedExactly(ms[0].value, ns[j.value].value, caseSensitive);
      }
      CoveredExactly(ms[1..], ns, caseSensitive);
      assert forall i | 1 <= i < |ms| :: ms[i] == ms[1..][i - 1];
    }
  }

  lemma AgreeBothWays(ms: seq<Member>, ns: seq<Member>, caseSensitive: bool)
    ensures AllAgree(ms, ns, caseSensitive) && AllAgree(ns, ms, caseSensitive)
      <==> CanonicalMembers(ms, caseSensitive) == CanonicalMembers(ns, caseSensitive)
           && ConsistentMembers(ms, caseSensitive) && ConsistentMembers(ns, caseSensitive)
  {
    hide *;
    if AllAgree(ms, ns, caseSensitive) && AllAgree(ns, ms, caseSensitive) {
      AgreeIsSubmap(ms, ns, caseSensitive);
      AgreeIsSubmap(ns, ms, caseSensitive);
      AgreeIsConsistent(ms, ns, caseSensitive);
      AgreeIsConsistent(ns, ms, caseSensitive);
    }
    if CanonicalMembers(ms, caseSensitive) == CanonicalMembers(ns, caseSensitive)
      && ConsistentMembers(ms, caseSensitive) && ConsistentMembers(ns, caseSensitive) {
      EqualMapsAgree(ms, ns, caseSensitive);
      EqualMapsAgree(ns, ms, caseSensitive);
    }
  }

  lemma AgreeIsSubmap(ms: seq<Member>, ns: seq<Member>, caseSensitive: bool)
    requires AllAgree(ms, ns, caseSensitive)
    ensures var x, y := CanonicalMembers(ms, caseSensitive), CanonicalMembers(ns, caseSensitive);
      forall k | k in x :: k in y && x[k] == y[k]
  {
    hide CanonicalMembers, Canonical, Consistent, Find, Fold;
    var x, y := CanonicalMembers(ms, caseSensitive), CanonicalMembers(ns, caseSensitive);
    forall k | k in x ensures k in y && x[k] == y[k] {
      var i := KeyHasMember(ms, k, caseSensitive);
      assert Agrees(ms[i], ns, caseSensitive);
      FindIsLookup(ns, ms[i].key, caseSensitive);
    }
  }

  lemma AgreeIsConsistent(ms: seq<Member>, ns: seq<Member>, caseSensitive: bool)
    requires AllAgree(ms, ns, caseSensitive)
    ensures ConsistentMembers(ms, caseSensitive)
  {
    hide CanonicalMembers, Canonical, Consistent, Find, Fold;
    forall i | 0 <= i < |ms| ensures ConsistentAt(ms, i, caseSensitive) {
      assert Agrees(ms[i], ns, caseSensitive);
      FindIsLookup(ns, ms[i].key, caseSensitive);
      forall k | 0 <= k < i && Fold(ms[k].key, caseSensitive) == Fold(ms[i].key, caseSensitive)
        ensures Canonical(ms[k].value, caseSensitive) == Canonical(ms[i].value, caseSensitive)
      {
        assert Agrees(ms[k], ns, caseSensitive);
        FindIsLookup(ns, ms[k].key, caseSensitive);
      }
    }
  }

  lemma EqualMapsAgree(ms: seq<Member>, ns: seq<Member>, caseSensitive: bool)
    requires CanonicalMembers(ms, caseSensitive) == CanonicalMembers(ns, caseSensitive)
    requires ConsistentMembers(ms, caseSensitive) && ConsistentMembers(ns, caseSensitive)
    ensures AllAgree(ms, ns, caseSensitive)
  {
    hide CanonicalMembers, Canonical, Consistent, Find, Fold;
    forall i | 0 <= i < |ms| ensures Agrees(ms[i], ns, caseSensitive) {
      assert ConsistentAt(ms, i, caseSensitive);
      FindIsLookup(ms, ms[i].key, caseSensitive);
      FindIsLookup(ns, ms[i].key, caseSensitive);
      var own, j := Find(ms, ms[i].key, caseSensitive), Find(ns, ms[i].key, caseSensitive);
      assert own.Some? && ConsistentAt(ns, j.value, caseSensitive);
      assert ConsistentAt(ms, own.value, caseSensitive);
      assert own.value <= i || own.value > i;
    }
  }

  // Values without children are compared as they are, arrays element by element.
  lemma ComparedPlain(a: Json, b: Json, caseSensitive: bool)
    ensures !a.Array? && !a.Object? ==> (Compared(a, b, caseSensitive) <==> a == b)
    ensures a.Array? ==>
      (Compared(a, b, caseSensitive) <==>
         b.Array? && |a.items| == |b.items|
         && forall i | 0 <= i < |a.items| :: Compared(a.items[i], b.items[i], caseSensitive))
  {
    if a.Array? && b.Array? {
      ArraysCompared(a.items, b.items, caseSensitive);
      ItemsPairwise(a.items, b.items, caseSensitive);
      hide Compared;
    }
  }

  lemma {:induction false} ItemsPairwise(xs: seq<Json>, ys: seq<Json>, caseSensitive: bool)
    ensures ItemsCompared(xs, ys, caseSensitive) <==>
      |xs| == |ys| && forall i | 0 <= i < |xs| :: Compared(xs[i], ys[i], caseSensitive)
  {
    hide Compared;
    if xs != [] && ys != [] {
      ItemsPairwise(xs[1..], ys[1..], caseSensitive);
      assert forall i | 1 <= i < |xs| :: xs[i] == xs[1..][i - 1];
      assert forall i | 1 <= i < |ys| :: ys[i] == ys[1..][i - 1];
    }
  }

  // Without duplicate names it is equality as maps.
  lemma ComparedDistinct(a: Json, b: Json, caseSensitive: bool)
    requires DistinctKeys(a, caseSensitive) && DistinctKeys(b, caseSensitive)
    ensures Compared(a, b, caseSensitive) <==> Canonical(a, caseSensitive) == Canonical(b, caseSensitive)
  {
    ComparedExactly(a, b, caseSensitive);
    DistinctIsConsistent(a, caseSensitive);
    DistinctIsConsistent(b, caseSensitive);
  }

  // A tree and its duplicate: the early exit for identical pointers agrees with the comparison it
  // saves exactly on these trees.
  lemma ComparedWithCopy(v: Json, caseSensitive: bool)
    ensures Compared(v, v, caseSensitive) <==> Consistent(v, caseSensitive)
  {
    ComparedExactly(v, v, caseSensitive);
  }

  // {"a":null,"a":true} does not compare equal to its duplicate.
  lemma DuplicateNameDiffers(caseSensitive: bool)
    ensures var v := Object([Member([0x61], Null), Member([0x61], True)]);
      !Compared(v, v, caseSensitive)
  {
    var ms := [Member([0x61], Null), Member([0x61], True)];
    ComparedWithCopy(Object(ms), caseSensitive);
    ConsistentObject(ms, caseSensitive);
    assert Canonical(Null, caseSensitive) != Canonical(True, caseSensitive);
    hide Compared, Consistent, Canonical, Fold;
    assert ms[0].key == ms[1].key && !ConsistentAt(ms, 1, caseSensitive);
  }
}
