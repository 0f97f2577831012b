/** The snapshot canonicaliser of tools/normalize-snapshots.ts: parsed JSON trees and
    their normal form. Objects are their own properties in property order. */
module Normalize {

  /** A property key, as UTF-16 code units. */
  type Key = seq<int>

  datatype Json =
    | Prim(text: string)
    | Arr(items: seq<Json>)
    | Obj(fields: seq<Field>)

  datatype Field = Field(key: Key, value: Json)

  function Units(s: string): Key
  {
    seq(|s|, i requires 0 <= i < |s| => s[i] as int)
  }

  const TIMESTAMP: Key := Units("timestamp")
  const ELAPSED: Key := Units("elapsed_ms")
  const GENERATED: Key := Units("generated_at")
  const PROTO: Key := Units("__proto__")

  predicate IsVolatile(k: Key)
  {
    k == TIMESTAMP || k == ELAPSED || k == GENERATED
  }

  // ------------------------------------------------------ sorting by code unit

  /** JavaScript's default string order. */
  predicate KeyLess(a: Key, b: Key)
  {
    |b| > 0 && (|a| == 0 || a[0] < b[0] || (a[0] == b[0] && KeyLess(a[1..], b[1..])))
  }

  lemma {:induction false} KeyLessTransitive(a: Key, b: Key, c: Key)
    requires KeyLess(a, b) && KeyLess(b, c)
    ensures KeyLess(a, c)
  {
    if |a| > 0 && a[0] == b[0] == c[0] {
      KeyLessTransitive(a[1..], b[1..], c[1..]);
    }
  }

  lemma {:induction false} KeyLessTotal(a: Key, b: Key)
    ensures KeyLess(a, b) || a == b || KeyLess(b, a)
    ensures !(KeyLess(a, b) && KeyLess(b, a))
    ensures !KeyLess(a, a)
  {
    if |a| > 0 {
      KeyLessTotal(a[1..], a[1..]);
      if |b| > 0 && a[0] == b[0] {
        KeyLessTotal(a[1..], b[1..]);
        assert a[1..] == b[1..] ==> a == [a[0]] + a[1..] == b;
      }
    }
  }

  /** The order is the one of a dictionary: a proper prefix comes first, and otherwise the first
      code unit that differs decides. */
  lemma {:induction false} KeyOrderIsLexical(prefix: Key, x: int, y: int, a: Key, b: Key)
    ensures KeyLess(prefix, prefix + [x] + a)
    ensures x != y ==> (KeyLess(prefix + [x] + a, prefix + [y] + b) <==> x < y)
  {
    if |prefix| > 0 {
      KeyOrderIsLexical(prefix[1..], x, y, a, b);
      assert (prefix + [x] + a)[1..] == prefix[1..] + [x] + a;
      assert (prefix + [y] + b)[1..] == prefix[1..] + [y] + b;
    } else {
      assert prefix + [x] + a == [x] + a && prefix + [y] + b == [y] + b;
    }
  }

  function Insert(f: Field, sorted: seq<Field>): seq<Field>
  {
    if |sorted| == 0 then [f]
    else if KeyLess(f.key, sorted[0].key) then [f] + sorted
    else [sorted[0]] + Insert(f, sorted[1..])
  }

  function Sort(fs: seq<Field>): seq<Field>
  {
    if |fs| == 0 then [] else Insert(fs[0], Sort(fs[1..]))
  }

  ghost predicate Sorted(fs: seq<Field>)
  {
    forall i, j | 0 <= i < j < |fs| :: KeyLess(fs[i].key, fs[j].key)
  }

  ghost predicate DistinctKeys(fs: seq<Field>)
  {
    forall i, j | 0 <= i < j < |fs| :: fs[i].key != fs[j].key
  }

  predicate HasKey(fs: seq<Field>, k: Key)
  {
    exists i | 0 <= i < |fs| :: fs[i].key == k
  }

  lemma {:induction false} InsertMembers(f: Field, sorted: seq<Field>)
    ensures |Insert(f, sorted)| == |sorted| + 1
    ensures forall g :: g in Insert(f, sorted) <==> g == f || g in sorted
  {
    if |sorted| > 0 && !KeyLess(f.key, sorted[0].key) {
      InsertMembers(f, sorted[1..]);
      assert sorted == [sorted[0]] + sorted[1..];
    }
  }

  lemma {:induction false} InsertSorts(f: Field, sorted: seq<Field>)
    requires Sorted(sorted) && forall g | g in sorted :: g.key != f.key
    ensures Sorted(Insert(f, sorted))
  {
    if |sorted| > 0 {
      KeyLessTotal(f.key, sorted[0].key);
      if KeyLess(f.key, sorted[0].key) {
        forall j | 0 < j < |sorted| ensures KeyLess(f.key, sorted[j].key) {
          KeyLessTransitive(f.key, sorted[0].key, sorted[j].key);
        }
      } else {
        var tail := Insert(f, sorted[1..]);
        InsertSorts(f, sorted[1..]);
        InsertMembers(f, sorted[1..]);
        assert sorted[0].key != f.key;
        forall j | 0 <= j < |tail| ensures KeyLess(sorted[0].key, tail[j].key) {
          assert tail[j] in tail;
          if tail[j] != f {
            var i :| 0 <= i < |sorted[1..]| && sorted[1..][i] == tail[j];
          }
        }
      }
    }
  }

  lemma {:induction false} SortMembers(fs: seq<Field>)
    ensures forall g :: g in Sort(fs) <==> g in fs
  {
    if |fs| > 0 {
      SortMembers(fs[1..]);
      InsertMembers(fs[0], Sort(fs[1..]));
      assert fs == [fs[0]] + fs[1..];
    }
  }

  lemma {:induction false} SortSorts(fs: seq<Field>)
    requires DistinctKeys(fs)
    ensures Sorted(Sort(fs))
  {
    if |fs| > 0 {
      SortSorts(fs[1..]);
      SortMembers(fs[1..]);
      forall g | g in Sort(fs[1..]) ensures g.key != fs[0].key {
        var i :| 0 <= i < |fs[1..]| && fs[1..][i] == g;
      }
      InsertSorts(fs[0], Sort(fs[1..]));
    }
  }

  /** A sorted list is determined by what it contains. */
  lemma {:induction false} SortedIsUnique(a: seq<Field>, b: seq<Field>)
    requires Sorted(a) && Sorted(b) && forall g :: g in a <==> g in b
    ensures a == b
  {
    assert forall i | 0 <= i < |a| :: a[i] in b;
    assert forall i | 0 <= i < |b| :: b[i] in a;
    if |a| > 0 && |b| > 0 {
      HeadIsLeast(a, b[0]);
      HeadIsLeast(b, a[0]);
      assert a[0] in a && b[0] in b;
      KeyLessTotal(a[0].key, b[0].key);
      KeyLessTotal(a[0].key, a[0].key);
      assert a[0] == b[0];
      TailMembers(a);
      TailMembers(b);
      SortedIsUnique(a[1..], b[1..]);
      assert a == [a[0]] + a[1..] && b == [b[0]] + b[1..];
    }
  }

  lemma HeadIsLeast(a: seq<Field>, g: Field)
    requires Sorted(a) && g in a
    ensures g == a[0] || KeyLess(a[0].key, g.key)
  {
  }

  lemma TailMembers(a: seq<Field>)
    requires Sorted(a) && |a| > 0
    ensures forall g :: g in a[1..] <==> g in a && g != a[0]
  {
    KeyLessTotal(a[0].key, a[0].key);
    assert a == [a[0]] + a[1..];
    forall i | 0 < i < |a| ensures a[i] != a[0] {
      assert KeyLess(a[0].key, a[i].key);
    }
  }

  // --------------------------------------- building an object, key by key

  predicate IsDigit(u: int) { '0' as int <= u <= '9' as int }

  function Decimal(k: Key): int
  {
    if |k| == 0 then 0 else Decimal(k[..|k| - 1]) * 10 + (k[|k| - 1] - '0' as int)
  }

  /** Canonical array indices come before all other properties, in numeric order,
      whatever the order of assignment. */
  predicate IsIndex(k: Key)
  {
    |k| > 0 && (forall i | 0 <= i < |k| :: IsDigit(k[i])) && (k[0] == '0' as int ==> |k| == 1)
    && Decimal(k) < 0xFFFF_FFFF
  }

  function PlaceIndex(acc: seq<Field>, f: Field): seq<Field>
  {
    if |acc| > 0 && IsIndex(acc[0].key) && Decimal(acc[0].key) < Decimal(f.key) then [acc[0]] + PlaceIndex(acc[1..], f)
    else [f] + acc
  }

  function Replace(acc: seq<Field>, f: Field): seq<Field>
  {
    if |acc| == 0 then []
    else if acc[0].key == f.key then [f] + acc[1..]
    else [acc[0]] + Replace(acc[1..], f)
  }

  /** `acc[k] = v` on a plain object. Assigning to `__proto__` creates no property. */
  function Put(acc: seq<Field>, f: Field): seq<Field>
  {
    if f.key == PROTO then acc
    else if HasKey(acc, f.key) then Replace(acc, f)
    else if IsIndex(f.key) then PlaceIndex(acc, f)
    else acc + [f]
  }

  /** The reduction over the sorted keys. */
  function Assemble(fs: seq<Field>): seq<Field>
  {
    if |fs| == 0 then [] else Put(Assemble(fs[..|fs| - 1]), fs[|fs| - 1])
  }

  // ---------------------------------------------------------- normalisation

  /** `normalizeValue`. */
  function NormalizeValue(j: Json): Json
    decreases j, 1
  {
    match j
    case Prim(_) => j
    case Arr(items) => Arr(NormalizeItems(items))
    case Obj(fields) => Obj(Assemble(Sort(NormalizeKept(fields))))
  }

  function NormalizeItems(items: seq<Json>): (r: seq<Json>)
    ensures |r| == |items|
    decreases items, 0
  {
    if |items| == 0 then [] else [NormalizeValue(items[0])] + NormalizeItems(items[1..])
  }

  /** The filter on volatile keys, each kept value normalised. */
  function NormalizeKept(fields: seq<Field>): seq<Field>
    decreases fields, 0
  {
    if |fields| == 0 then []
    else
      var rest := NormalizeKept(fields[1..]);
      if IsVolatile(fields[0].key) then rest
      else [Field(fields[0].key, NormalizeValue(fields[0].value))] + rest
  }

  /** Keys are distinct within every object, as the JSON parser leaves them. */
  ghost predicate WellFormed(j: Json)
  {
    match j
    case Prim(_) => true
    case Arr(items) => forall i | 0 <= i < |items| :: WellFormed(items[i])
    case Obj(fields) => DistinctKeys(fields) && forall i | 0 <= i < |fields| :: WellFormed(fields[i].value)
  }

  lemma {:induction false} ItemsAt(items: seq<Json>, i: nat)
    requires i < |items|
    ensures NormalizeItems(items)[i] == NormalizeValue(items[i])
  {
    if i > 0 {
      ItemsAt(items[1..], i - 1);
    }
  }

  /** `g` is the normalised form of one of the kept fields. */
  ghost predicate FromKept(fields: seq<Field>, g: Field)
  {
    exists i :: 0 <= i < |fields| && !IsVolatile(fields[i].key)
        && g == Field(fields[i].key, NormalizeValue(fields[i].value))
  }

  lemma {:induction false} KeptMembers(fields: seq<Field>, g: Field)
    ensures g in NormalizeKept(fields) <==> FromKept(fields, g)
  {
    if |fields| > 0 {
      KeptMembers(fields[1..], g);
      if FromKept(fields[1..], g) {
        var i :| 0 <= i < |fields[1..]| && !IsVolatile(fields[1..][i].key)
                 && g == Field(fields[1..][i].key, NormalizeValue(fields[1..][i].value));
        assert fields[i + 1] == fields[1..][i];
      }
      if FromKept(fields, g) {
        var i :| 0 <= i < |fields| && !IsVolatile(fields[i].key)
            && g == Field(fields[i].key, NormalizeValue(fields[i].value));
        if i > 0 { assert fields[i] == fields[1..][i - 1]; }
      }
    }
  }

  lemma {:induction false} KeptDistinct(fields: seq<Field>)
    requires DistinctKeys(fields)
    ensures DistinctKeys(NormalizeKept(fields))
  {
    if |fields| > 0 {
      KeptDistinct(fields[1..]);
      var rest := NormalizeKept(fields[1..]);
      forall j | 0 <= j < |rest| ensures rest[j].key != fields[0].key {
        assert rest[j] in rest;
        KeptMembers(fields[1..], rest[j]);
        var i :| 0 <= i < |fields[1..]| && rest[j].key == fields[1..][i].key;
        assert fields[i + 1] == fields[1..][i];
      }
    }
  }

  // ----------------------------------------------- what an assembled object holds

  lemma {:induction false} PlaceIndexMembers(acc: seq<Field>, f: Field)
    ensures |PlaceIndex(acc, f)| == |acc| + 1
    ensures forall g :: g in PlaceIndex(acc, f) <==> g == f || g in acc
  {
    if |acc| > 0 && IsIndex(acc[0].key) && Decimal(acc[0].key) < Decimal(f.key) {
      PlaceIndexMembers(acc[1..], f);
      assert acc == [acc[0]] + acc[1..];
    }
  }

  lemma {:induction false} PlaceIndexDistinct(acc: seq<Field>, f: Field)
    requires DistinctKeys(acc) && !HasKey(acc, f.key)
    ensures DistinctKeys(PlaceIndex(acc, f))
  {
    if |acc| > 0 && IsIndex(acc[0].key) && Decimal(acc[0].key) < Decimal(f.key) {
      var tail := PlaceIndex(acc[1..], f);
      assert !HasKey(acc[1..], f.key) by {
        assert forall i | 0 <= i < |acc[1..]| :: acc[1..][i] == acc[i + 1];
      }
      PlaceIndexDistinct(acc[1..], f);
      PlaceIndexMembers(acc[1..], f);
      forall j | 0 <= j < |tail| ensures tail[j].key != acc[0].key {
        assert tail[j] in tail;
        if tail[j] != f {
          var i :| 0 <= i < |acc[1..]| && acc[1..][i] == tail[j];
          assert acc[i + 1] == tail[j];
        }
      }
    }
  }

  /** Assembling distinct keys loses only `__proto__`, and keeps keys distinct. */
  lemma {:induction false} AssembleMembers(fs: seq<Field>)
    requires DistinctKeys(fs)
    ensures DistinctKeys(Assemble(fs))
    ensures forall g :: g in Assemble(fs) <==> g in fs && g.key != PROTO
  {
    if |fs| > 0 {
      var n := |fs| - 1;
      var acc, f := Assemble(fs[..n]), fs[n];
      AssembleMembers(fs[..n]);
      assert fs == fs[..n] + [f];
      if f.key != PROTO {
        assert !HasKey(acc, f.key) by {
          forall i | 0 <= i < |acc| ensures acc[i].key != f.key {
            assert acc[i] in acc;
            var m :| 0 <= m < n && fs[..n][m] == acc[i];
          }
        }
        PlaceIndexMembers(acc, f);
        PlaceIndexDistinct(acc, f);
      }
    }
  }

  /** The fields without `__proto__`. */
  function WithoutProto(fs: seq<Field>): seq<Field>
  {
    if |fs| == 0 then []
    else
      var before := WithoutProto(fs[..|fs| - 1]);
      if fs[|fs| - 1].key == PROTO then before else before + [fs[|fs| - 1]]
  }

  lemma {:induction false} WithoutProtoMembers(fs: seq<Field>)
    ensures forall g :: g in WithoutProto(fs) <==> g in fs && g.key != PROTO
  {
    if |fs| > 0 {
      WithoutProtoMembers(fs[..|fs| - 1]);
      assert fs == fs[..|fs| - 1] + [fs[|fs| - 1]];
    }
  }

  lemma {:induction false} WithoutProtoSorted(fs: seq<Field>)
    requires Sorted(fs)
    ensures Sorted(WithoutProto(fs))
  {
    if |fs| > 0 {
      var n := |fs| - 1;
      WithoutProtoSorted(fs[..n]);
      WithoutProtoMembers(fs[..n]);
      var before := WithoutProto(fs[..n]);
      forall i | 0 <= i < |before| ensures KeyLess(before[i].key, fs[n].key) {
        assert before[i] in before;
        var m :| 0 <= m < n && fs[..n][m] == before[i];
      }
    }
  }

  lemma {:induction false} AssembleIgnoresProto(fs: seq<Field>)
    ensures Assemble(fs) == Assemble(WithoutProto(fs))
  {
    if |fs| > 0 {
      var n := |fs| - 1;
      AssembleIgnoresProto(fs[..n]);
      if fs[n].key != PROTO {
        var w := WithoutProto(fs);
        assert w[..|w| - 1] == WithoutProto(fs[..n]);
      }
    }
  }

  /** Two field lists that hold the same fields, `__proto__` aside, assemble to the same
      object, properties in the same order. */
  lemma {:induction false} AssembleDependsOnContent(a: seq<Field>, b: seq<Field>)
    requires DistinctKeys(a) && DistinctKeys(b)
    requires forall g: Field | g.key != PROTO :: g in a <==> g in b
    ensures Assemble(Sort(a)) == Assemble(Sort(b))
  {
    SortSorts(a);
    SortSorts(b);
    SortMembers(a);
    SortMembers(b);
    WithoutProtoSorted(Sort(a));
    WithoutProtoSorted(Sort(b));
    WithoutProtoMembers(Sort(a));
    WithoutProtoMembers(Sort(b));
    SortedIsUnique(WithoutProto(Sort(a)), WithoutProto(Sort(b)));
    AssembleIgnoresProto(Sort(a));
    AssembleIgnoresProto(Sort(b));
  }

  // ------------------------------------------------------------- the theorems

  /** The two trees agree on everything but key order and the keys that `drop` names, at
      every depth. */
  ghost predicate SameBut(a: Json, b: Json, drop: Key -> bool)
  {
    match (a, b)
    case (Prim(s), Prim(t)) => s == t
    case (Arr(xs), Arr(ys)) => |xs| == |ys| && forall i | 0 <= i < |xs| :: SameBut(xs[i], ys[i], drop)
    case (Obj(fs), Obj(gs)) =>
      && (forall i | 0 <= i < |fs| && !drop(fs[i].key) :: HasKey(gs, fs[i].key))
      && (forall j | 0 <= j < |gs| && !drop(gs[j].key) :: HasKey(fs, gs[j].key))
      && (forall i, j | 0 <= i < |fs| && 0 <= j < |gs| && fs[i].key == gs[j].key && !drop(fs[i].key) ::
            SameBut(fs[i].value, gs[j].value, drop))
    case _ => false
  }

  /** The keys that really disappear: the volatile ones and `__proto__`. */
  predicate Vanishes(k: Key) { IsVolatile(k) || k == PROTO }

  lemma {:induction false} NormalFields(fields: seq<Field>)
    requires DistinctKeys(fields)
    ensures var normal := Assemble(Sort(NormalizeKept(fields)));
            DistinctKeys(normal) && forall g :: g in normal <==> FromKept(fields, g) && g.key != PROTO
  {
    var kept := NormalizeKept(fields);
    KeptDistinct(fields);
    SortSorts(kept);
    SortMembers(kept);
    SortedDistinct(Sort(kept));
    AssembleMembers(Sort(kept));
    forall g ensures g in kept <==> FromKept(fields, g) {
      KeptMembers(fields, g);
    }
  }

  /** Of the properties of an object exactly four names are missing from its normal form. */
  lemma {:induction false} ExactlyTheseVanish(fields: seq<Field>, k: Key)
    requires DistinctKeys(fields)
    ensures HasKey(NormalizeValue(Obj(fields)).fields, k) <==>
            && HasKey(fields, k)
            && k !in [Units("timestamp"), Units("elapsed_ms"), Units("generated_at"), Units("__proto__")]
  {
    var normal := NormalizeValue(Obj(fields)).fields;
    NormalFields(fields);
    if HasKey(fields, k) && !Vanishes(k) {
      var i :| 0 <= i < |fields| && fields[i].key == k;
      var g := Field(k, NormalizeValue(fields[i].value));
      assert FromKept(fields, g);
      assert g in normal;
    }
    if HasKey(normal, k) {
      var i :| 0 <= i < |normal| && normal[i].key == k;
      assert normal[i] in normal;
    }
  }

  // ------------------------------------------------------ the order of properties

  /** JavaScript's order of own properties: array indices first, by value, then the other
      keys, here as sorted. */
  ghost predicate InPropertyOrder(f: Field, g: Field)
  {
    if IsIndex(f.key) then !IsIndex(g.key) || Decimal(f.key) <= Decimal(g.key)
    else !IsIndex(g.key) && KeyLess(f.key, g.key)
  }

  ghost predicate PropertyOrdered(fs: seq<Field>)
  {
    forall i, j | 0 <= i < j < |fs| :: InPropertyOrder(fs[i], fs[j])
  }

  lemma {:induction false} PlaceIndexOrdered(acc: seq<Field>, f: Field)
    requires PropertyOrdered(acc) && IsIndex(f.key)
    ensures PropertyOrdered(PlaceIndex(acc, f))
  {
    if |acc| > 0 && IsIndex(acc[0].key) && Decimal(acc[0].key) < Decimal(f.key) {
      PlaceIndexOrdered(acc[1..], f);
      PlaceIndexMembers(acc[1..], f);
      var rest := PlaceIndex(acc[1..], f);
      forall j | 0 <= j < |rest| ensures InPropertyOrder(acc[0], rest[j]) {
        assert rest[j] in rest;
        if rest[j] != f {
          var i :| 0 <= i < |acc[1..]| && acc[1..][i] == rest[j];
          assert InPropertyOrder(acc[0], acc[i + 1]);
        }
      }
    } else {
      forall j | 0 <= j < |acc| ensures InPropertyOrder(f, acc[j]) {
        FirstIndexIsLeast(acc, j);
      }
    }
  }

  lemma {:induction false} FirstIndexIsLeast(acc: seq<Field>, j: int)
    requires PropertyOrdered(acc) && 0 <= j < |acc|
    ensures IsIndex(acc[j].key) ==> IsIndex(acc[0].key) && Decimal(acc[0].key) <= Decimal(acc[j].key)
  {
    if j > 0 {
      assert InPropertyOrder(acc[0], acc[j]);
    }
  }

  /** Rebuilt from sorted keys, an object has its properties in that order. */
  lemma {:induction false} AssembledInOrder(fs: seq<Field>)
    requires Sorted(fs)
    ensures PropertyOrdered(Assemble(fs))
  {
    if |fs| > 0 {
      var n := |fs| - 1;
      var acc, f := Assemble(fs[..n]), fs[n];
      SortedDistinct(fs[..n]);
      AssembledInOrder(fs[..n]);
      AssembleMembers(fs[..n]);
      forall g | g in acc ensures KeyLess(g.key, f.key) {
        var i :| 0 <= i < n && fs[..n][i] == g;
        assert KeyLess(fs[i].key, fs[n].key);
      }
      NewKeyIsNew(acc, f);
      if f.key != PROTO && IsIndex(f.key) {
        PlaceIndexOrdered(acc, f);
      }
    }
  }

  lemma {:induction false} NewKeyIsNew(acc: seq<Field>, f: Field)
    requires forall g | g in acc :: KeyLess(g.key, f.key)
    ensures !HasKey(acc, f.key)
  {
    KeyLessTotal(f.key, f.key);
    forall i | 0 <= i < |acc| ensures acc[i].key != f.key {
      assert acc[i] in acc;
    }
  }

  /** So every object of a normal form has its properties in order, at the top and, as its
      values are normal forms themselves, at every depth. */
  lemma {:induction false} NormalIsOrdered(fields: seq<Field>)
    requires DistinctKeys(fields)
    ensures PropertyOrdered(NormalizeValue(Obj(fields)).fields)
    ensures forall g | g in NormalizeValue(Obj(fields)).fields ::
              exists f :: f in fields && g == Field(f.key, NormalizeValue(f.value))
  {
    KeptDistinct(fields);
    SortSorts(NormalizeKept(fields));
    AssembledInOrder(Sort(NormalizeKept(fields)));
    NormalFields(fields);
    forall g | g in NormalizeValue(Obj(fields)).fields
      ensures exists f :: f in fields && g == Field(f.key, NormalizeValue(f.value))
    {
      var i :| 0 <= i < |fields| && !IsVolatile(fields[i].key)
          && g == Field(fields[i].key, NormalizeValue(fields[i].value));
      assert fields[i] in fields;
    }
  }

  lemma {:induction false} SortedDistinct(fs: seq<Field>)
    requires Sorted(fs)
    ensures DistinctKeys(fs)
  {
    forall i, j | 0 <= i < j < |fs| ensures fs[i].key != fs[j].key {
      KeyLessTotal(fs[i].key, fs[i].key);
      assert KeyLess(fs[i].key, fs[j].key);
    }
  }

  lemma {:induction false} NormalIsWellFormed(j: Json)
    requires WellFormed(j)
    ensures WellFormed(NormalizeValue(j))
  {
    match j {
      case Prim(_) =>
      case Arr(items) =>
        forall i | 0 <= i < |items| ensures WellFormed(NormalizeItems(items)[i]) {
          ItemsAt(items, i);
          NormalIsWellFormed(items[i]);
        }
      case Obj(fields) =>
        NormalFields(fields);
        var normal := Assemble(Sort(NormalizeKept(fields)));
        forall k | 0 <= k < |normal| ensures WellFormed(normal[k].value) {
          assert normal[k] in normal;
          var i :| 0 <= i < |fields| && normal[k] == Field(fields[i].key, NormalizeValue(fields[i].value));
          NormalIsWellFormed(fields[i].value);
        }
    }
  }

  /** Trees that agree up to vanishing keys have the same normal form... */
  lemma {:induction false} SameTreesNormalizeEqually(a: Json, b: Json)
    requires WellFormed(a) && WellFormed(b) && SameBut(a, b, Vanishes)
    ensures NormalizeValue(a) == NormalizeValue(b)
    decreases a
  {
    match (a, b) {
      case (Arr(xs), Arr(ys)) =>
        forall i | 0 <= i < |xs| ensures NormalizeItems(xs)[i] == NormalizeItems(ys)[i] {
          ItemsAt(xs, i);
          ItemsAt(ys, i);
          SameTreesNormalizeEqually(xs[i], ys[i]);
        }
        assert NormalizeItems(xs) == NormalizeItems(ys);
      case (Obj(fs), Obj(gs)) =>
        KeptDistinct(fs);
        KeptDistinct(gs);
        forall i, j | 0 <= i < |fs| && 0 <= j < |gs| && fs[i].key == gs[j].key && !Vanishes(fs[i].key)
          ensures NormalizeValue(fs[i].value) == NormalizeValue(gs[j].value)
        {
          SameTreesNormalizeEqually(fs[i].value, gs[j].value);
        }
        forall g: Field | g.key != PROTO ensures g in NormalizeKept(fs) <==> g in NormalizeKept(gs) {
          KeptMembers(fs, g);
          KeptMembers(gs, g);
        }
        AssembleDependsOnContent(NormalizeKept(fs), NormalizeKept(gs));
      case _ =>
    }
  }

  lemma {:induction false} KeyInNormal(fields: seq<Field>, i: nat)
    requires DistinctKeys(fields) && i < |fields| && !Vanishes(fields[i].key)
    ensures Field(fields[i].key, NormalizeValue(fields[i].value)) in Assemble(Sort(NormalizeKept(fields)))
  {
    NormalFields(fields);
    assert FromKept(fields, Field(fields[i].key, NormalizeValue(fields[i].value)));
  }

  lemma DistinctDetermines(fs: seq<Field>, g: Field, h: Field)
    requires DistinctKeys(fs) && g in fs && h in fs && g.key == h.key
    ensures g == h
  {
  }

  lemma {:induction false} NormalKeyCameFrom(fields: seq<Field>, g: Field)
    requires DistinctKeys(fields) && g in Assemble(Sort(NormalizeKept(fields)))
    ensures HasKey(fields, g.key)
  {
    NormalFields(fields);
  }

  /** ...and only those. */
  lemma {:induction false} EqualNormalFormsAreSame(a: Json, b: Json)
    requires WellFormed(a) && WellFormed(b) && NormalizeValue(a) == NormalizeValue(b)
    ensures SameBut(a, b, Vanishes)
    decreases a
  {
    match (a, b) {
      case (Arr(xs), Arr(ys)) =>
        forall i | 0 <= i < |xs| ensures SameBut(xs[i], ys[i], Vanishes) {
          ItemsAt(xs, i);
          ItemsAt(ys, i);
          EqualNormalFormsAreSame(xs[i], ys[i]);
        }
      case (Obj(fs), Obj(gs)) =>
        forall i | 0 <= i < |fs| && !Vanishes(fs[i].key) ensures HasKey(gs, fs[i].key) {
          KeyInNormal(fs, i);
          NormalKeyCameFrom(gs, Field(fs[i].key, NormalizeValue(fs[i].value)));
        }
        forall j | 0 <= j < |gs| && !Vanishes(gs[j].key) ensures HasKey(fs, gs[j].key) {
          KeyInNormal(gs, j);
          NormalKeyCameFrom(fs, Field(gs[j].key, NormalizeValue(gs[j].value)));
        }
        forall i, j | 0 <= i < |fs| && 0 <= j < |gs| && fs[i].key == gs[j].key && !Vanishes(fs[i].key)
          ensures SameBut(fs[i].value, gs[j].value, Vanishes)
        {
          KeyInNormal(fs, i);
          KeyInNormal(gs, j);
          NormalFields(fs);
          DistinctDetermines(Assemble(Sort(NormalizeKept(fs))),
                             Field(fs[i].key, NormalizeValue(fs[i].value)),
                             Field(gs[j].key, NormalizeValue(gs[j].value)));
          EqualNormalFormsAreSame(fs[i].value, gs[j].value);
        }
      case _ =>
    }
  }

  /** The normal form identifies exactly the trees that differ in key order and in
      vanishing keys, at any depth. */
  lemma {:induction false} NormalFormIsCanonical(a: Json, b: Json)
    requires WellFormed(a) && WellFormed(b)
    ensures NormalizeValue(a) == NormalizeValue(b) <==> SameBut(a, b, Vanishes)
  {
    if SameBut(a, b, Vanishes) {
      SameTreesNormalizeEqually(a, b);
    }
    if NormalizeValue(a) == NormalizeValue(b) {
      EqualNormalFormsAreSame(a, b);
    }
  }

  /** A tree agrees with its own normal form. */
  lemma {:induction false} SameAsNormal(j: Json)
    requires WellFormed(j)
    ensures SameBut(NormalizeValue(j), j, Vanishes)
    decreases j
  {
    match j {
      case Prim(_) =>
      case Arr(items) =>
        forall i | 0 <= i < |items| ensures SameBut(NormalizeItems(items)[i], items[i], Vanishes) {
          ItemsAt(items, i);
          SameAsNormal(items[i]);
        }
      case Obj(fields) =>
        var normal := Assemble(Sort(NormalizeKept(fields)));
        NormalFields(fields);
        forall k | 0 <= k < |normal| ensures HasKey(fields, normal[k].key) {
          assert normal[k] in normal;
        }
        forall i | 0 <= i < |fields| && !Vanishes(fields[i].key) ensures HasKey(normal, fields[i].key) {
          KeyInNormal(fields, i);
        }
        forall k, i | 0 <= k < |normal| && 0 <= i < |fields| && normal[k].key == fields[i].key
            && !Vanishes(normal[k].key)
          ensures SameBut(normal[k].value, fields[i].value, Vanishes)
        {
          KeyInNormal(fields, i);
          assert normal[k] in normal;
          DistinctDetermines(normal, normal[k], Field(fields[i].key, NormalizeValue(fields[i].value)));
          SameAsNormal(fields[i].value);
        }
    }
  }

  /** Normalising twice is normalising once. */
  lemma {:induction false} NormalizeIsIdempotent(j: Json)
    requires WellFormed(j)
    ensures NormalizeValue(NormalizeValue(j)) == NormalizeValue(j)
  {
    NormalIsWellFormed(j);
    SameAsNormal(j);
    SameTreesNormalizeEqually(NormalizeValue(j), j);
  }

  lemma {:induction false} DroppingMoreIsWeaker(a: Json, b: Json)
    requires SameBut(a, b, IsVolatile)
    ensures SameBut(a, b, Vanishes)
    decreases a
  {
    match (a, b) {
      case (Arr(xs), Arr(ys)) =>
        forall i | 0 <= i < |xs| ensures SameBut(xs[i], ys[i], Vanishes) {
          DroppingMoreIsWeaker(xs[i], ys[i]);
        }
      case (Obj(fs), Obj(gs)) =>
        forall i, j | 0 <= i < |fs| && 0 <= j < |gs| && fs[i].key == gs[j].key && !Vanishes(fs[i].key)
          ensures SameBut(fs[i].value, gs[j].value, Vanishes)
        {
          DroppingMoreIsWeaker(fs[i].value, gs[j].value);
        }
      case _ =>
    }
  }

  /** What the tool promises: trees that differ only in key order and in the three volatile
      keys normalise to the same tree. */
  lemma {:induction false} OrderAndNoiseDoNotMatter(a: Json, b: Json)
    requires WellFormed(a) && WellFormed(b) && SameBut(a, b, IsVolatile)
    ensures NormalizeValue(a) == NormalizeValue(b)
  {
    DroppingMoreIsWeaker(a, b);
    SameTreesNormalizeEqually(a, b);
  }

  /** No property named `__proto__` at any depth. */
  ghost predicate NoProto(j: Json)
  {
    match j
    case Prim(_) => true
    case Arr(items) => forall i | 0 <= i < |items| :: NoProto(items[i])
    case Obj(fields) => forall i | 0 <= i < |fields| :: fields[i].key != PROTO && NoProto(fields[i].value)
  }

  lemma {:induction false} DroppingProtoChangesNothing(a: Json, b: Json)
    requires NoProto(a) && NoProto(b) && SameBut(a, b, Vanishes)
    ensures SameBut(a, b, IsVolatile)
    decreases a
  {
    match (a, b) {
      case (Arr(xs), Arr(ys)) =>
        forall i | 0 <= i < |xs| ensures SameBut(xs[i], ys[i], IsVolatile) {
          DroppingProtoChangesNothing(xs[i], ys[i]);
        }
      case (Obj(fs), Obj(gs)) =>
        forall i, j | 0 <= i < |fs| && 0 <= j < |gs| && fs[i].key == gs[j].key && !IsVolatile(fs[i].key)
          ensures SameBut(fs[i].value, gs[j].value, IsVolatile)
        {
          DroppingProtoChangesNothing(fs[i].value, gs[j].value);
        }
      case _ =>
    }
  }

  /** Without such a property nothing but order and volatile keys is ever lost: two trees
      have the same normal form if and only if they differ in nothing else. */
  lemma {:induction false} OnlyOrderAndNoiseAreLost(a: Json, b: Json)
    requires WellFormed(a) && WellFormed(b) && NoProto(a) && NoProto(b)
    ensures NormalizeValue(a) == NormalizeValue(b) <==> SameBut(a, b, IsVolatile)
  {
    NormalFormIsCanonical(a, b);
    if SameBut(a, b, IsVolatile) {
      DroppingMoreIsWeaker(a, b);
    }
    if SameBut(a, b, Vanishes) {
      DroppingProtoChangesNothing(a, b);
    }
  }

  /** A real difference can be lost too: a `__proto__` property disappears. */
  lemma {:induction false} ProtoDifferenceIsLost()
    ensures var a, b := Obj([Field(PROTO, Prim("1"))]), Obj([]);
            NormalizeValue(a) == NormalizeValue(b) && !SameBut(a, b, IsVolatile)
  {
    var a, b := Obj([Field(PROTO, Prim("1"))]), Obj([]);
    assert |PROTO| == 9 && |TIMESTAMP| == 9 && PROTO[0] == '_' as int && TIMESTAMP[0] == 't' as int;
    assert |ELAPSED| == 10 && |GENERATED| == 12;
    assert SameBut(a, b, Vanishes);
    SameTreesNormalizeEqually(a, b);
  }
}
