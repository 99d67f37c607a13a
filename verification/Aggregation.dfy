/**
 GROUP BY, aggregates and HAVING: what they mean.

 A record is its bytes. Aggregated columns hold integers or floats; sums are exact. None stands for an error
 raised while a group is evaluated (a column that is not grouped by, or values of incomparable types).
 */
module Aggregation {
  import opened Common
  import opened Conditions
  import opened Words
  import J = JoinPlans

  datatype ColType = INT | FLOAT | TEXT

  datatype FieldMeta = FieldMeta(column: J.Column, colType: ColType, offset: nat, len: nat)

  datatype AggKind = SUM | COUNT | AVG | MIN | MAX | COUNT_STAR

  datatype Item = Plain(column: J.Column) | Agg(kind: AggKind, column: J.Column)

  datatype Value = IntValue(i: int) | FloatValue(f: real) | StrValue(s: Bytes)

  datatype HavingRhs = Literal(value: Value) | Expr(item: Item)

  datatype HavingCond = HavingCond(lhs: Item, op: CompOp, rhs: HavingRhs)

  // ---- Fields ---------------------------------------------------------------------------------------

  function Field(rec: Bytes, meta: FieldMeta): Bytes
    requires meta.offset + meta.len <= |rec|
  {
    rec[meta.offset..meta.offset + meta.len]
  }

  /** A text field without its padding. */
  function TextOf(b: Bytes): (r: Bytes)
    ensures r <= b && 0 !in r && (|r| < |b| ==> b[|r|] == 0)
  {
    if b == [] || b[0] == 0 then [] else [b[0]] + TextOf(b[1..])
  }

  function PowerOfTwo(e: int): real
    decreases if e < 0 then -e else e
  {
    if e == 0 then 1.0 else if e > 0 then 2.0 * PowerOfTwo(e - 1) else PowerOfTwo(e + 1) / 2.0
  }

  /** A single precision number of a given sign, exponent and fraction. */
  function FloatNumber(negative: bool, exponent: nat, fraction: nat): real {
    var size := if exponent == 0 then fraction as real * PowerOfTwo(-149)
                else (0x80_0000 + fraction) as real * PowerOfTwo(exponent - 150);
    if negative then -size else size
  }

  /** The highest bit is the sign, the next eight are the exponent. */
  function FloatOf(b: Bytes): real
    requires |b| == 4
  {
    var u := UnsignedOf(b);
    FloatNumber(u >= 0x8000_0000, u / 0x80_0000 % 0x100, u % 0x80_0000)
  }

  lemma {:induction false} PowerDoubles(e: int)
    ensures PowerOfTwo(e + 1) == 2.0 * PowerOfTwo(e) && PowerOfTwo(e) > 0.0
    decreases if e < 0 then -e else e
  {
    if e > 0 {
      PowerDoubles(e - 1);
    } else if e < 0 {
      PowerDoubles(e + 1);
    }
  }

  /** One more in the exponent doubles a number, the sign negates it, and the fraction is what it has beyond the
      least number with its exponent. */
  lemma FloatScale(negative: bool, exponent: nat, fraction: nat)
    ensures exponent > 0 ==>
      FloatNumber(negative, exponent + 1, fraction) == 2.0 * FloatNumber(negative, exponent, fraction)
    ensures FloatNumber(!negative, exponent, fraction) == -FloatNumber(negative, exponent, fraction)
    ensures FloatNumber(false, exponent, fraction) - FloatNumber(false, exponent, 0) ==
            fraction as real * (FloatNumber(false, exponent, 1) - FloatNumber(false, exponent, 0))
    ensures FloatNumber(false, 0, 0x80_0000) == FloatNumber(false, 1, 0)
  {
    PowerDoubles(exponent - 150);
  }

  lemma {:induction false} PowerInverse(e: nat)
    ensures PowerOfTwo(0 - e) * PowerOfTwo(e) == 1.0
  {
    if e > 0 {
      PowerInverse(e - 1);
      assert PowerOfTwo(0 - e) == PowerOfTwo(0 - (e - 1)) / 2.0;
    }
  }

  lemma {:induction false} PowerSum(a: nat, b: nat)
    ensures PowerOfTwo(a + b) == PowerOfTwo(a) * PowerOfTwo(b)
  {
    if b > 0 {
      PowerSum(a, b - 1);
    }
  }

  /** The word of 1. */
  lemma FloatOne()
    ensures FloatOf([0, 0, 0x80, 0x3F]) == FloatNumber(false, 127, 0) == 1.0
  {
    PowerInverse(23);
    PowerSum(16, 7);
    PowerSum(8, 8);
    PowerSum(4, 4);
    PowerSum(4, 3);
    assert PowerOfTwo(2) == 4.0 && PowerOfTwo(3) == 8.0 && PowerOfTwo(4) == 16.0;
  }

  function ValueOf(colType: ColType, b: Bytes): Value
    requires colType != TEXT ==> |b| == 4
  {
    match colType
    case INT => IntValue(IntOf(b))
    case FLOAT => FloatValue(FloatOf(b))
    case TEXT => StrValue(TextOf(b))
  }

  /** The number in a field. */
  function NumberOf(colType: ColType, b: Bytes): real
    requires colType != TEXT && |b| == 4
  {
    if colType == INT then IntOf(b) as real else FloatOf(b)
  }

  /** A number as a value of the column's type. */
  function NumberValue(colType: ColType, x: real): Value {
    if colType == INT then IntValue(x.Floor) else FloatValue(x)
  }

  ghost predicate Exists(cols: seq<FieldMeta>, c: J.Column) {
    exists i :: 0 <= i < |cols| && cols[i].column == c
  }

  /** The first column with this name. */
  function MetaOf(cols: seq<FieldMeta>, c: J.Column): (m: FieldMeta)
    requires Exists(cols, c)
    ensures m in cols && m.column == c
  {
    if cols[0].column == c then cols[0] else MetaOf(cols[1..], c)
  }

  lemma {:induction false} MetaByPlace(cols: seq<FieldMeta>, c: J.Column, i: nat)
    requires i < |cols| && cols[i].column == c && forall j :: 0 <= j < i ==> cols[j].column != c
    ensures Exists(cols, c) && MetaOf(cols, c) == cols[i]
  {
    if i > 0 {
      MetaByPlace(cols[1..], c, i - 1);
      assert Exists(cols, c);
    }
  }

  /** The columns fit the record; integers have four bytes. */
  ghost predicate Laid(cols: seq<FieldMeta>, rec: Bytes) {
    forall m <- cols :: m.offset + m.len <= |rec| && (m.colType != TEXT ==> m.len == 4)
  }

  // ---- Groups ---------------------------------------------------------------------------------------

  const ALL: Bytes := [95, 95, 97, 108, 108, 95, 95]

  ghost predicate Grouped(cols: seq<FieldMeta>, gs: seq<J.Column>) {
    forall c <- gs :: Exists(cols, c)
  }

  /** The grouping fields of a record. */
  function GroupFields(cols: seq<FieldMeta>, gs: seq<J.Column>, rec: Bytes): (r: seq<Bytes>)
    requires Grouped(cols, gs) && Laid(cols, rec)
    ensures |r| == |gs|
    ensures forall i :: 0 <= i < |gs| ==>
      gs[i] in gs && Exists(cols, gs[i]) && r[i] == Field(rec, MetaOf(cols, gs[i]))
  {
    seq(|gs|, i requires 0 <= i < |gs| => assert gs[i] in gs; Field(rec, MetaOf(cols, gs[i])))
  }

  /** The grouping fields one after the other, each closed by a zero byte. */
  function Closed(fields: seq<Bytes>): Bytes {
    if fields == [] then [] else Closed(fields[..|fields| - 1]) + (fields[|fields| - 1] + [0])
  }

  function KeyOf(cols: seq<FieldMeta>, gs: seq<J.Column>, rec: Bytes): Bytes
    requires Grouped(cols, gs) && Laid(cols, rec)
  {
    if gs == [] then ALL else Closed(GroupFields(cols, gs, rec))
  }

  lemma {:induction false} ClosedInjective(a: seq<Bytes>, b: seq<Bytes>)
    requires |a| == |b| && forall i :: 0 <= i < |a| ==> |a[i]| == |b[i]|
    ensures |Closed(a)| == |Closed(b)| && (Closed(a) == Closed(b) ==> a == b)
  {
    if a != [] {
      var n := |a| - 1;
      ClosedInjective(a[..n], b[..n]);
      if Closed(a) == Closed(b) {
        SplitAt(Closed(a[..n]), a[n] + [0], Closed(b[..n]), b[n] + [0]);
        SplitAt(a[n], [0], b[n], [0]);
        assert a == a[..n] + [a[n]] && b == b[..n] + [b[n]];
      }
    }
  }

  lemma SplitAt(a: Bytes, b: Bytes, c: Bytes, d: Bytes)
    requires |a| == |c| && a + b == c + d
    ensures a == c && b == d
  {
    assert a == (a + b)[..|a|] && b == (a + b)[|a|..];
    assert c == (c + d)[..|c|] && d == (c + d)[|c|..];
  }

  /** Two records are in one group iff they agree on every grouping column. */
  lemma SameGroup(cols: seq<FieldMeta>, gs: seq<J.Column>, r: Bytes, s: Bytes)
    requires Grouped(cols, gs) && Laid(cols, r) && Laid(cols, s)
    ensures KeyOf(cols, gs, r) == KeyOf(cols, gs, s) <==> GroupFields(cols, gs, r) == GroupFields(cols, gs, s)
  {
    ClosedInjective(GroupFields(cols, gs, r), GroupFields(cols, gs, s));
  }

  ghost predicate AllLaid(cols: seq<FieldMeta>, rows: seq<Bytes>) {
    forall rec <- rows :: Laid(cols, rec)
  }

  /** The group keys in the order in which they first occur. */
  ghost function Keys(cols: seq<FieldMeta>, gs: seq<J.Column>, rows: seq<Bytes>): seq<Bytes>
    requires Grouped(cols, gs) && AllLaid(cols, rows)
  {
    if rows == [] then []
    else
      var init, last := rows[..|rows| - 1], rows[|rows| - 1];
      var ks, k := Keys(cols, gs, init), KeyOf(cols, gs, last);
      if k in ks then ks else ks + [k]
  }

  /** The records of one group, in order. */
  ghost function Members(cols: seq<FieldMeta>, gs: seq<J.Column>, rows: seq<Bytes>, key: Bytes): (r: seq<Bytes>)
    requires Grouped(cols, gs) && AllLaid(cols, rows)
    ensures AllLaid(cols, r) && forall rec <- r :: rec in rows && KeyOf(cols, gs, rec) == key
  {
    if rows == [] then []
    else
      var init, last := rows[..|rows| - 1], rows[|rows| - 1];
      assert last in rows && Laid(cols, last);
      var ms := Members(cols, gs, init, key);
      if KeyOf(cols, gs, last) == key then ms + [last] else ms
  }

  /** The keys are those of the records, each once, and each has members. */
  lemma {:induction false} KeysExact(cols: seq<FieldMeta>, gs: seq<J.Column>, rows: seq<Bytes>)
    requires Grouped(cols, gs) && AllLaid(cols, rows)
    ensures forall k :: k in Keys(cols, gs, rows) <==> Members(cols, gs, rows, k) != []
    ensures forall i, j :: 0 <= i < j < |Keys(cols, gs, rows)| ==> Keys(cols, gs, rows)[i] != Keys(cols, gs, rows)[j]
  {
    if rows != [] {
      KeysExact(cols, gs, rows[..|rows| - 1]);
    }
  }

  /** A record with one key comes before all records with the other. */
  ghost predicate ComesFirst(cols: seq<FieldMeta>, gs: seq<J.Column>, rows: seq<Bytes>, k: Bytes, l: Bytes)
    requires Grouped(cols, gs) && AllLaid(cols, rows)
  {
    exists a :: 0 <= a < |rows| && RowHasKey(cols, gs, rows, a, k) &&
                forall b :: 0 <= b <= a ==> !RowHasKey(cols, gs, rows, b, l)
  }

  ghost predicate RowHasKey(cols: seq<FieldMeta>, gs: seq<J.Column>, rows: seq<Bytes>, i: int, k: Bytes)
    requires Grouped(cols, gs) && AllLaid(cols, rows)
  {
    0 <= i < |rows| && rows[i] in rows && KeyOf(cols, gs, rows[i]) == k
  }

  /** The keys are in the order in which they first occur. */
  lemma {:induction false} KeysByFirst(cols: seq<FieldMeta>, gs: seq<J.Column>, rows: seq<Bytes>)
    requires Grouped(cols, gs) && AllLaid(cols, rows)
    ensures forall k <- Keys(cols, gs, rows) :: exists a :: RowHasKey(cols, gs, rows, a, k)
    ensures forall i :: 0 <= i < |rows| ==> rows[i] in rows && KeyOf(cols, gs, rows[i]) in Keys(cols, gs, rows)
    ensures forall i, j :: 0 <= i < j < |Keys(cols, gs, rows)| ==>
      ComesFirst(cols, gs, rows, Keys(cols, gs, rows)[i], Keys(cols, gs, rows)[j])
  {
    hide KeyOf, Laid;
    if rows != [] {
      var n := |rows| - 1;
      var init, ks := rows[..n], Keys(cols, gs, rows[..n]);
      KeysByFirst(cols, gs, init);
      assert rows[n] in rows && Laid(cols, rows[n]);
      assert forall a, k :: RowHasKey(cols, gs, init, a, k) <==> a < n && RowHasKey(cols, gs, rows, a, k);
      assert RowHasKey(cols, gs, rows, n, KeyOf(cols, gs, rows[n]));
      forall i | 0 <= i < n
        ensures KeyOf(cols, gs, rows[i]) in ks
      {
        assert init[i] == rows[i];
      }
      forall i, j | 0 <= i < j < |Keys(cols, gs, rows)|
        ensures ComesFirst(cols, gs, rows, Keys(cols, gs, rows)[i], Keys(cols, gs, rows)[j])
      {
        var k, l := Keys(cols, gs, rows)[i], Keys(cols, gs, rows)[j];
        if j < |ks| {
          assert ComesFirst(cols, gs, init, k, l);
        } else {
          assert k in ks;
          var a :| RowHasKey(cols, gs, init, a, k);
          assert forall b :: 0 <= b <= a ==> !RowHasKey(cols, gs, init, b, l);
        }
      }
    }
  }

  lemma KeysGrow(cols: seq<FieldMeta>, gs: seq<J.Column>, rows: seq<Bytes>, rec: Bytes)
    requires Grouped(cols, gs) && AllLaid(cols, rows) && Laid(cols, rec)
    ensures AllLaid(cols, rows + [rec])
    ensures var ks, k := Keys(cols, gs, rows), KeyOf(cols, gs, rec);
            Keys(cols, gs, rows + [rec]) == if k in ks then ks else ks + [k]
  {
  }

  lemma MembersGrow(cols: seq<FieldMeta>, gs: seq<J.Column>, rows: seq<Bytes>, rec: Bytes, key: Bytes)
    requires Grouped(cols, gs) && AllLaid(cols, rows) && Laid(cols, rec)
    ensures AllLaid(cols, rows + [rec])
    ensures var ms := Members(cols, gs, rows, key);
            Members(cols, gs, rows + [rec], key) == if KeyOf(cols, gs, rec) == key then ms + [rec] else ms
  {
  }

  /** The records are those of the input that agree with the first of them on every grouping column, each as
      often as it is there. */
  ghost predicate IsGroup(cols: seq<FieldMeta>, gs: seq<J.Column>, rows: seq<Bytes>, members: seq<Bytes>)
    requires Grouped(cols, gs) && AllLaid(cols, rows)
  {
    && members != [] && Laid(cols, members[0])
    && forall rec :: multiset(members)[rec] ==
         if rec in rows && GroupFields(cols, gs, rec) == GroupFields(cols, gs, members[0])
         then multiset(rows)[rec] else 0
  }

  lemma {:induction false} MembersCounted(cols: seq<FieldMeta>, gs: seq<J.Column>, rows: seq<Bytes>, key: Bytes,
                                          rec: Bytes)
    requires Grouped(cols, gs) && AllLaid(cols, rows)
    ensures multiset(Members(cols, gs, rows, key))[rec] ==
            if rec in rows && KeyOf(cols, gs, rec) == key then multiset(rows)[rec] else 0
  {
    hide Laid, KeyOf;
    if rows != [] {
      var n := |rows| - 1;
      assert rows == rows[..n] + [rows[n]];
      MembersCounted(cols, gs, rows[..n], key, rec);
    }
  }

  /** The members of a key are the records that agree on the grouping columns. */
  lemma MembersAreGroup(cols: seq<FieldMeta>, gs: seq<J.Column>, rows: seq<Bytes>, key: Bytes)
    requires Grouped(cols, gs) && AllLaid(cols, rows)
    ensures Members(cols, gs, rows, key) != [] ==> IsGroup(cols, gs, rows, Members(cols, gs, rows, key))
  {
    hide Laid, KeyOf, Members, GroupFields;
    var members := Members(cols, gs, rows, key);
    if members != [] {
      assert members[0] in members;
      forall rec
        ensures multiset(members)[rec] ==
          if rec in rows && GroupFields(cols, gs, rec) == GroupFields(cols, gs, members[0])
          then multiset(rows)[rec] else 0
      {
        MembersCounted(cols, gs, rows, key, rec);
        if rec in rows {
          SameGroup(cols, gs, rec, members[0]);
        }
      }
    }
  }

  ghost function Sizes(cols: seq<FieldMeta>, gs: seq<J.Column>, rows: seq<Bytes>, keys: seq<Bytes>): nat
    requires Grouped(cols, gs) && AllLaid(cols, rows)
  {
    if keys == [] then 0
    else Sizes(cols, gs, rows, keys[..|keys| - 1]) + |Members(cols, gs, rows, keys[|keys| - 1])|
  }

  lemma {:induction false} SizesStep(cols: seq<FieldMeta>, gs: seq<J.Column>, rows: seq<Bytes>, keys: seq<Bytes>)
    requires Grouped(cols, gs) && AllLaid(cols, rows) && rows != []
    requires forall i, j :: 0 <= i < j < |keys| ==> keys[i] != keys[j]
    ensures Sizes(cols, gs, rows, keys) ==
            Sizes(cols, gs, rows[..|rows| - 1], keys) + if KeyOf(cols, gs, rows[|rows| - 1]) in keys then 1 else 0
  {
    hide KeyOf, Laid;
    if keys != [] {
      var n := |keys| - 1;
      SizesStep(cols, gs, rows, keys[..n]);
      assert keys == keys[..n] + [keys[n]];
      assert keys[n] !in keys[..n];
    }
  }

  /** Every record is in exactly one group: the group sizes add up to the input. */
  lemma {:induction false} CountsAddUp(cols: seq<FieldMeta>, gs: seq<J.Column>, rows: seq<Bytes>)
    requires Grouped(cols, gs) && AllLaid(cols, rows)
    ensures Sizes(cols, gs, rows, Keys(cols, gs, rows)) == |rows|
  {
    if rows != [] {
      var init := rows[..|rows| - 1];
      var ks, k := Keys(cols, gs, init), KeyOf(cols, gs, rows[|rows| - 1]);
      CountsAddUp(cols, gs, init);
      KeysExact(cols, gs, init);
      KeysExact(cols, gs, rows);
      SizesStep(cols, gs, rows, ks);
      assert k !in ks ==> (ks + [k])[..|ks|] == ks && Members(cols, gs, init, k) == [];
    }
  }

  // ---- Aggregates -------------------------------------------------------------------------------------

  ghost function Numbers(cols: seq<FieldMeta>, meta: FieldMeta, members: seq<Bytes>): (r: seq<real>)
    requires meta in cols && meta.colType != TEXT && AllLaid(cols, members)
    ensures |r| == |members|
  {
    seq(|members|, k requires 0 <= k < |members| =>
      assert Laid(cols, members[k]);
      NumberOf(meta.colType, Field(members[k], meta)))
  }

  ghost function SumOf(s: seq<real>): real {
    if s == [] then 0.0 else SumOf(s[..|s| - 1]) + s[|s| - 1]
  }

  /** The least element; 0 when there is none. */
  ghost function Least(s: seq<real>): (r: real)
    ensures s != [] ==> r in s && forall x <- s :: r <= x
    ensures s == [] ==> r == 0.0
  {
    if s == [] then 0.0
    else
      var init, last := s[..|s| - 1], s[|s| - 1];
      assert s == init + [last];
      if init == [] || last < Least(init) then last else Least(init)
  }

  /** The greatest element; 0 when there is none. */
  ghost function Greatest(s: seq<real>): (r: real)
    ensures s != [] ==> r in s && forall x <- s :: x <= r
    ensures s == [] ==> r == 0.0
  {
    if s == [] then 0.0
    else
      var init, last := s[..|s| - 1], s[|s| - 1];
      assert s == init + [last];
      if init == [] || last > Greatest(init) then last else Greatest(init)
  }

  /** COUNT takes any column, the other aggregates take columns of numbers. */
  ghost predicate Summable(cols: seq<FieldMeta>, item: Item) {
    match item
    case Plain(c) => Exists(cols, c)
    case Agg(kind, c) => kind != COUNT_STAR ==> Exists(cols, c) && (kind != COUNT ==> MetaOf(cols, c).colType != TEXT)
  }

  /** What an aggregate over the members of a group is. */
  ghost function AggValue(cols: seq<FieldMeta>, kind: AggKind, c: J.Column, members: seq<Bytes>): Value
    requires Summable(cols, Agg(kind, c)) && AllLaid(cols, members)
  {
    if kind == COUNT || kind == COUNT_STAR then IntValue(|members|)
    else
      var m := MetaOf(cols, c);
      var xs := Numbers(cols, m, members);
      match kind
      case SUM => NumberValue(m.colType, SumOf(xs))
      case AVG => FloatValue(if xs == [] then 0.0 else SumOf(xs) / |xs| as real)
      case MIN => NumberValue(m.colType, Least(xs))
      case MAX => NumberValue(m.colType, Greatest(xs))
  }

  /** A value as a number. */
  ghost function Amount(v: Value): real {
    match v
    case IntValue(i) => i as real
    case FloatValue(f) => f
    case StrValue(_) => 0.0
  }

  /** The member's number in the column. */
  ghost function NumberIn(cols: seq<FieldMeta>, c: J.Column, rec: Bytes): real
    requires Exists(cols, c) && MetaOf(cols, c).colType != TEXT && Laid(cols, rec)
  {
    NumberOf(MetaOf(cols, c).colType, Field(rec, MetaOf(cols, c)))
  }

  /** What each kind of aggregate says of the members' fields. An aggregate without members is 0. */
  ghost predicate IsAggregate(cols: seq<FieldMeta>, kind: AggKind, c: J.Column, members: seq<Bytes>, v: Value)
    requires Summable(cols, Agg(kind, c)) && AllLaid(cols, members)
  {
    match kind
    case COUNT => v == IntValue(|members|)
    case COUNT_STAR => v == IntValue(|members|)
    case SUM => OfColumn(cols, c, v) && Amount(v) == Total(cols, c, members)
    case AVG =>
      v.FloatValue? && (members == [] ==> v.f == 0.0) && v.f * |members| as real == Total(cols, c, members)
    case MIN =>
      && OfColumn(cols, c, v) && (members == [] ==> Amount(v) == 0.0)
      && (members != [] ==> exists rec <- members :: Amount(v) == NumberIn(cols, c, rec))
      && forall rec <- members :: Amount(v) <= NumberIn(cols, c, rec)
    case MAX =>
      && OfColumn(cols, c, v) && (members == [] ==> Amount(v) == 0.0)
      && (members != [] ==> exists rec <- members :: Amount(v) == NumberIn(cols, c, rec))
      && forall rec <- members :: Amount(v) >= NumberIn(cols, c, rec)
  }

  /** The value has the type of the column. */
  ghost predicate OfColumn(cols: seq<FieldMeta>, c: J.Column, v: Value)
    requires Exists(cols, c)
  {
    if MetaOf(cols, c).colType == INT then v.IntValue? else v.FloatValue?
  }

  /** The sum of the members' numbers in the column. */
  ghost function Total(cols: seq<FieldMeta>, c: J.Column, members: seq<Bytes>): real
    requires Exists(cols, c) && MetaOf(cols, c).colType != TEXT && AllLaid(cols, members)
  {
    if members == [] then 0.0
    else
      assert members[0] in members;
      NumberIn(cols, c, members[0]) + Total(cols, c, members[1..])
  }

  ghost predicate Whole(x: real) {
    x == x.Floor as real
  }

  lemma {:induction false} SumIsWhole(s: seq<real>)
    requires forall x <- s :: Whole(x)
    ensures Whole(SumOf(s))
  {
    if s != [] {
      var n := |s| - 1;
      assert s == s[..n] + [s[n]];
      SumIsWhole(s[..n]);
      assert s[n] in s && Whole(s[n]);
      assert SumOf(s) == (SumOf(s[..n]).Floor + s[n].Floor) as real;
    }
  }

  lemma {:induction false} SumFromFront(s: seq<real>)
    requires s != []
    ensures SumOf(s) == s[0] + SumOf(s[1..])
  {
    var n := |s| - 1;
    if n > 0 {
      SumFromFront(s[..n]);
      assert s[1..][..n - 1] == s[..n][1..];
    }
  }

  lemma {:induction false} TotalIsSum(cols: seq<FieldMeta>, c: J.Column, members: seq<Bytes>)
    requires Exists(cols, c) && MetaOf(cols, c).colType != TEXT && AllLaid(cols, members)
    ensures Total(cols, c, members) == SumOf(Numbers(cols, MetaOf(cols, c), members))
  {
    if members != [] {
      var xs := Numbers(cols, MetaOf(cols, c), members);
      assert members[0] in members && AllLaid(cols, members[1..]);
      TotalIsSum(cols, c, members[1..]);
      SumFromFront(xs);
      assert xs[1..] == Numbers(cols, MetaOf(cols, c), members[1..]);
    }
  }

  /** The value of an aggregate is what its kind says. */
  lemma AggregateMeans(cols: seq<FieldMeta>, kind: AggKind, c: J.Column, members: seq<Bytes>)
    requires Summable(cols, Agg(kind, c)) && AllLaid(cols, members)
    ensures IsAggregate(cols, kind, c, members, AggValue(cols, kind, c, members))
  {
    hide Numbers, NumberIn, Total, Laid, Least, Greatest, SumOf, MetaOf;
    match kind
    case COUNT | COUNT_STAR =>
    case SUM =>
      TotalIsSum(cols, c, members);
      NumbersOfMembers(cols, c, members);
      if MetaOf(cols, c).colType == INT {
        SumIsWhole(Numbers(cols, MetaOf(cols, c), members));
      }
    case AVG =>
      TotalIsSum(cols, c, members);
      NoSum(Numbers(cols, MetaOf(cols, c), members));
    case MIN | MAX => ExtremesMean(cols, c, members);
  }

  lemma NoSum(s: seq<real>)
    ensures s == [] ==> SumOf(s) == 0.0
    ensures s != [] ==> SumOf(s) / |s| as real * |s| as real == SumOf(s)
  {
  }

  lemma ExtremesMean(cols: seq<FieldMeta>, c: J.Column, members: seq<Bytes>)
    requires Exists(cols, c) && MetaOf(cols, c).colType != TEXT && AllLaid(cols, members)
    ensures
      var xs := Numbers(cols, MetaOf(cols, c), members);
      var least, greatest := NumberValue(MetaOf(cols, c).colType, Least(xs)),
                             NumberValue(MetaOf(cols, c).colType, Greatest(xs));
      && OfColumn(cols, c, least) && OfColumn(cols, c, greatest)
      && Amount(least) == Least(xs) && Amount(greatest) == Greatest(xs)
      && (members != [] ==> exists rec <- members :: Amount(least) == NumberIn(cols, c, rec))
      && (members != [] ==> exists rec <- members :: Amount(greatest) == NumberIn(cols, c, rec))
      && forall rec <- members :: Amount(least) <= NumberIn(cols, c, rec) <= Amount(greatest)
  {
    hide Numbers, NumberIn, Laid, MetaOf;
    NumbersOfMembers(cols, c, members);
    var xs := Numbers(cols, MetaOf(cols, c), members);
    hide Least, Greatest;
    assert members != [] ==> Least(xs) in xs && Greatest(xs) in xs;
    assert Whole(0.0);
    assert MetaOf(cols, c).colType == INT ==> Whole(Least(xs)) && Whole(Greatest(xs));
  }

  /** The numbers are those of the members, and whole in a column of integers. */
  lemma NumbersOfMembers(cols: seq<FieldMeta>, c: J.Column, members: seq<Bytes>)
    requires Exists(cols, c) && MetaOf(cols, c).colType != TEXT && AllLaid(cols, members)
    ensures
      var xs := Numbers(cols, MetaOf(cols, c), members);
      && (forall x <- xs :: exists rec <- members :: x == NumberIn(cols, c, rec))
      && (forall rec <- members :: NumberIn(cols, c, rec) in xs)
      && (MetaOf(cols, c).colType == INT ==> forall x <- xs :: Whole(x))
  {
    var xs := Numbers(cols, MetaOf(cols, c), members);
    forall rec | rec in members
      ensures NumberIn(cols, c, rec) in xs
    {
      var k :| 0 <= k < |members| && members[k] == rec;
      assert xs[k] == NumberIn(cols, c, rec);
    }
    forall x | x in xs
      ensures exists rec <- members :: x == NumberIn(cols, c, rec)
      ensures MetaOf(cols, c).colType == INT ==> Whole(x)
    {
      var k :| 0 <= k < |xs| && xs[k] == x;
      assert members[k] in members && x == NumberIn(cols, c, members[k]);
    }
  }

  /** What a select item is in a group. */
  ghost function ItemValue(cols: seq<FieldMeta>, gs: seq<J.Column>, item: Item, members: seq<Bytes>): Option<Value>
    requires Summable(cols, item) && AllLaid(cols, members)
  {
    match item
    case Plain(c) =>
      if c !in gs || members == [] then None
      else
        assert members[0] in members;
        var m := MetaOf(cols, c);
        Some(ValueOf(m.colType, Field(members[0], m)))
    case Agg(kind, c) => Some(AggValue(cols, kind, c, members))
  }

  // ---- HAVING -----------------------------------------------------------------------------------------

  function Sign(less: bool, greater: bool): int {
    if greater then 1 else if less then -1 else 0
  }

  function TextCompare(a: Bytes, b: Bytes): int {
    if a == [] || b == [] then Sign(|a| < |b|, |b| < |a|)
    else if a[0] != b[0] then Sign(a[0] < b[0], b[0] < a[0])
    else TextCompare(a[1..], b[1..])
  }

  /** A text comes before another: at the first difference its byte is smaller, or it ends there. */
  ghost predicate TextLess(a: Bytes, b: Bytes) {
    exists n :: DiffersAt(a, b, n) && n < |b| && (n == |a| || a[n] < b[n])
  }

  ghost predicate DiffersAt(a: Bytes, b: Bytes, n: int) {
    0 <= n <= |a| && n <= |b| && a[..n] == b[..n]
  }

  lemma {:induction false} TextCompareIsOrder(a: Bytes, b: Bytes)
    ensures TextCompare(a, b) < 0 <==> TextLess(a, b)
    ensures TextCompare(a, b) == 0 <==> a == b
    ensures TextCompare(a, b) > 0 <==> TextLess(b, a)
  {
    if a == [] || b == [] {
      assert DiffersAt(a, b, 0) && DiffersAt(b, a, 0);
    } else if a[0] != b[0] {
      FirstDecides(a, b);
      FirstDecides(b, a);
    } else {
      TextCompareIsOrder(a[1..], b[1..]);
      TailDecides(a, b);
      TailDecides(b, a);
      assert a == [a[0]] + a[1..] && b == [b[0]] + b[1..];
    }
  }

  lemma FirstDecides(a: Bytes, b: Bytes)
    requires a != [] && b != [] && a[0] != b[0]
    ensures TextLess(a, b) <==> a[0] < b[0]
  {
    assert DiffersAt(a, b, 0);
    if n :| DiffersAt(a, b, n) && n < |b| && (n == |a| || a[n] < b[n]) {
      assert n > 0 ==> a[..n][0] == b[..n][0];
    }
  }

  lemma TailDecides(a: Bytes, b: Bytes)
    requires a != [] && b != [] && a[0] == b[0]
    ensures TextLess(a, b) <==> TextLess(a[1..], b[1..])
  {
    if n :| DiffersAt(a, b, n) && n < |b| && (n == |a| || a[n] < b[n]) {
      assert n > 0;
      assert a[1..][..n - 1] == a[..n][1..] && b[1..][..n - 1] == b[..n][1..];
      assert DiffersAt(a[1..], b[1..], n - 1);
    }
    if n :| DiffersAt(a[1..], b[1..], n) && n < |b[1..]| && (n == |a[1..]| || a[1..][n] < b[1..][n]) {
      assert a[..n + 1] == [a[0]] + a[1..][..n] && b[..n + 1] == [b[0]] + b[1..][..n];
      assert DiffersAt(a, b, n + 1);
    }
  }

  /** Two numbers, or two texts. */
  predicate Comparable(a: Value, b: Value) {
    a.StrValue? <==> b.StrValue?
  }

  /** What each comparison says of two values: numbers by size, whatever their types, texts by their bytes. */
  ghost predicate ValuesRelate(a: Value, op: CompOp, b: Value)
    requires Comparable(a, b)
  {
    match op
    case EQ => if a.StrValue? then a.s == b.s else Amount(a) == Amount(b)
    case NE => if a.StrValue? then a.s != b.s else Amount(a) != Amount(b)
    case LT => if a.StrValue? then TextLess(a.s, b.s) else Amount(a) < Amount(b)
    case GT => if a.StrValue? then TextLess(b.s, a.s) else Amount(a) > Amount(b)
    case LE => if a.StrValue? then a.s == b.s || TextLess(a.s, b.s) else Amount(a) <= Amount(b)
    case GE => if a.StrValue? then a.s == b.s || TextLess(b.s, a.s) else Amount(a) >= Amount(b)
  }

  /** Compares two values; None when one is a text and the other a number. */
  function CompareValues(a: Value, b: Value, op: CompOp): (r: Option<bool>)
    ensures r.Some? <==> Comparable(a, b)
    ensures Comparable(a, b) ==> r == Some(ValuesRelate(a, op, b))
  {
    match (a, b)
    case (IntValue(x), IntValue(y)) => Some(CompareResult(Sign(x < y, y < x), op))
    case (FloatValue(x), FloatValue(y)) => Some(CompareResult(Sign(x < y, y < x), op))
    case (StrValue(x), StrValue(y)) =>
      TextCompareIsOrder(x, y);
      Some(CompareResult(TextCompare(x, y), op))
    case (IntValue(x), FloatValue(y)) => Some(CompareResult(Sign(x as real < y, y < x as real), op))
    case (FloatValue(x), IntValue(y)) => Some(CompareResult(Sign(x < y as real, y as real < x), op))
    case _ => None
  }

  ghost predicate CondOk(cols: seq<FieldMeta>, cond: HavingCond) {
    Summable(cols, cond.lhs) && (cond.rhs.Expr? ==> Summable(cols, cond.rhs.item))
  }

  ghost predicate CondsOk(cols: seq<FieldMeta>, conds: seq<HavingCond>) {
    forall cond <- conds :: CondOk(cols, cond)
  }

  /** A HAVING condition for a group. */
  ghost function CondValue(cols: seq<FieldMeta>, gs: seq<J.Column>, cond: HavingCond, members: seq<Bytes>): Option<bool>
    requires CondOk(cols, cond) && AllLaid(cols, members)
  {
    var l := ItemValue(cols, gs, cond.lhs, members);
    var r := match cond.rhs case Literal(v) => Some(v) case Expr(item) => ItemValue(cols, gs, item, members);
    if l.None? || r.None? || !Comparable(l.value, r.value) then None
    else Some(ValuesRelate(l.value, cond.op, r.value))
  }

  /** A conjunction, evaluated up to its first condition that does not hold. */
  ghost function AndValue(cols: seq<FieldMeta>, gs: seq<J.Column>, conds: seq<HavingCond>,
                          members: seq<Bytes>): Option<bool>
    requires CondsOk(cols, conds) && AllLaid(cols, members)
  {
    if conds == [] then Some(true)
    else
      var first := CondValue(cols, gs, conds[0], members);
      if first == Some(true) then AndValue(cols, gs, conds[1..], members) else first
  }

  ghost predicate HavingOk(cols: seq<FieldMeta>, having: seq<seq<HavingCond>>) {
    forall conds <- having :: CondsOk(cols, conds)
  }

  /** A disjunction of conjunctions, evaluated up to the first that is not false. */
  ghost function OrValue(cols: seq<FieldMeta>, gs: seq<J.Column>, having: seq<seq<HavingCond>>,
                         members: seq<Bytes>): Option<bool>
    requires HavingOk(cols, having) && AllLaid(cols, members)
  {
    if having == [] then Some(false)
    else
      assert having == [having[0]] + having[1..];
      var first := AndValue(cols, gs, having[0], members);
      if first == Some(false) then OrValue(cols, gs, having[1..], members) else first
  }

  /** Whether a group passes; no HAVING passes every group. */
  ghost function Passes(cols: seq<FieldMeta>, gs: seq<J.Column>, having: seq<seq<HavingCond>>,
                        members: seq<Bytes>): Option<bool>
    requires HavingOk(cols, having) && AllLaid(cols, members)
  {
    if having == [] then Some(true) else OrValue(cols, gs, having, members)
  }

  ghost predicate Judged(cols: seq<FieldMeta>, gs: seq<J.Column>, conds: seq<HavingCond>, members: seq<Bytes>)
    requires CondsOk(cols, conds) && AllLaid(cols, members)
  {
    forall cond <- conds :: CondValue(cols, gs, cond, members).Some?
  }

  ghost predicate AllTrue(cols: seq<FieldMeta>, gs: seq<J.Column>, conds: seq<HavingCond>, members: seq<Bytes>)
    requires CondsOk(cols, conds) && AllLaid(cols, members)
  {
    forall cond <- conds :: CondValue(cols, gs, cond, members) == Some(true)
  }

  lemma {:induction false} AndIsAll(cols: seq<FieldMeta>, gs: seq<J.Column>, conds: seq<HavingCond>,
                                    members: seq<Bytes>)
    requires CondsOk(cols, conds) && AllLaid(cols, members) && Judged(cols, gs, conds, members)
    ensures AndValue(cols, gs, conds, members) == Some(AllTrue(cols, gs, conds, members))
  {
    if conds != [] {
      assert conds == [conds[0]] + conds[1..];
      var first := CondValue(cols, gs, conds[0], members);
      assert conds[0] in conds && first.Some?;
      assert AndValue(cols, gs, conds, members) ==
             if first == Some(true) then AndValue(cols, gs, conds[1..], members) else first;
      assert AllTrue(cols, gs, conds, members) <==> first == Some(true) && AllTrue(cols, gs, conds[1..], members);
      AndIsAll(cols, gs, conds[1..], members);
    }
  }

  /** Without errors, a group passes iff all conditions of some conjunction hold. */
  lemma {:induction false} OrIsSome(cols: seq<FieldMeta>, gs: seq<J.Column>, having: seq<seq<HavingCond>>,
                                    members: seq<Bytes>)
    requires HavingOk(cols, having) && AllLaid(cols, members)
    requires forall conds <- having :: Judged(cols, gs, conds, members)
    ensures OrValue(cols, gs, having, members) == Some(exists conds <- having :: AllTrue(cols, gs, conds, members))
  {
    hide Judged, CondsOk, AllTrue, AllLaid;
    if having != [] {
      assert having == [having[0]] + having[1..];
      AndIsAll(cols, gs, having[0], members);
      OrIsSome(cols, gs, having[1..], members);
    }
  }

  // ---- The answer -------------------------------------------------------------------------------------

  ghost predicate ItemsOk(cols: seq<FieldMeta>, items: seq<Item>) {
    forall item <- items :: Summable(cols, item)
  }

  ghost function RowValues(cols: seq<FieldMeta>, gs: seq<J.Column>, items: seq<Item>,
                           members: seq<Bytes>): Option<seq<Value>>
    requires ItemsOk(cols, items) && AllLaid(cols, members)
  {
    if items == [] then Some([])
    else
      var n := |items| - 1;
      assert items[n] in items;
      var init, last := RowValues(cols, gs, items[..n], members), ItemValue(cols, gs, items[n], members);
      if init.None? || last.None? then None else Some(init.value + [last.value])
  }

  lemma {:induction false} RowFails(cols: seq<FieldMeta>, gs: seq<J.Column>, items: seq<Item>, members: seq<Bytes>,
                                    k: nat)
    requires ItemsOk(cols, items) && AllLaid(cols, members) && k <= |items|
    requires ItemsOk(cols, items[..k]) && RowValues(cols, gs, items[..k], members) == None
    ensures RowValues(cols, gs, items, members) == None
    decreases |items|
  {
    if k < |items| {
      var n := |items| - 1;
      assert items[..n][..k] == items[..k] && items[n] in items;
      RowFails(cols, gs, items[..n], members, k);
    } else {
      assert items[..k] == items;
    }
  }

  /** One row for each listed group that passes, in the order of the list. */
  ghost function Answer(cols: seq<FieldMeta>, gs: seq<J.Column>, items: seq<Item>, having: seq<seq<HavingCond>>,
                        rows: seq<Bytes>, keys: seq<Bytes>): Option<seq<seq<Value>>>
    requires Grouped(cols, gs) && AllLaid(cols, rows) && ItemsOk(cols, items) && HavingOk(cols, having)
  {
    if keys == [] then Some([])
    else
      var n := |keys| - 1;
      var init, members := Answer(cols, gs, items, having, rows, keys[..n]), Members(cols, gs, rows, keys[n]);
      var pass, row := Passes(cols, gs, having, members), RowValues(cols, gs, items, members);
      if init.None? || pass.None? then None
      else if !pass.value then init
      else if row.None? then None
      else Some(init.value + [row.value])
  }

  lemma {:induction false} AnswerFails(cols: seq<FieldMeta>, gs: seq<J.Column>, items: seq<Item>,
                                       having: seq<seq<HavingCond>>,
                                       rows: seq<Bytes>, keys: seq<Bytes>, k: nat)
    requires Grouped(cols, gs) && AllLaid(cols, rows) && ItemsOk(cols, items) && HavingOk(cols, having) && k <= |keys|
    requires Answer(cols, gs, items, having, rows, keys[..k]) == None
    ensures Answer(cols, gs, items, having, rows, keys) == None
    decreases |keys|
  {
    hide Members, Passes, RowValues;
    if k < |keys| {
      var n := |keys| - 1;
      assert keys[..n][..k] == keys[..k];
      AnswerFails(cols, gs, items, having, rows, keys[..n], k);
    } else {
      assert keys[..k] == keys;
    }
  }

  // ---- What the answer says ---------------------------------------------------------------------------

  /** A select item of a group: a grouping column's value, which all members share, or an aggregate. */
  ghost predicate ItemIs(cols: seq<FieldMeta>, gs: seq<J.Column>, item: Item, members: seq<Bytes>, v: Value)
    requires Summable(cols, item) && AllLaid(cols, members)
  {
    match item
    case Plain(c) =>
      var m := MetaOf(cols, c);
      c in gs && forall rec <- members :: v == ValueOf(m.colType, Field(rec, m))
    case Agg(kind, c) => IsAggregate(cols, kind, c, members, v)
  }

  ghost predicate RowIs(cols: seq<FieldMeta>, gs: seq<J.Column>, items: seq<Item>, members: seq<Bytes>, row: seq<Value>)
    requires ItemsOk(cols, items) && AllLaid(cols, members)
  {
    && |row| == |items|
    && forall i :: 0 <= i < |items| ==> items[i] in items && ItemIs(cols, gs, items[i], members, row[i])
  }

  /** The records agree on the grouping columns. */
  ghost predicate Agreeing(cols: seq<FieldMeta>, gs: seq<J.Column>, members: seq<Bytes>)
    requires Grouped(cols, gs) && AllLaid(cols, members)
  {
    forall r, s :: r in members && s in members ==> GroupFields(cols, gs, r) == GroupFields(cols, gs, s)
  }

  lemma ItemMeans(cols: seq<FieldMeta>, gs: seq<J.Column>, item: Item, members: seq<Bytes>)
    requires Summable(cols, item) && Grouped(cols, gs) && AllLaid(cols, members) && Agreeing(cols, gs, members)
    ensures
      var v := ItemValue(cols, gs, item, members);
      && (v.Some? ==> ItemIs(cols, gs, item, members, v.value))
      && (v.None? ==> item.Plain? && (item.column !in gs || members == []))
  {
    match item
    case Agg(kind, c) => AggregateMeans(cols, kind, c, members);
    case Plain(c) =>
      if c in gs && members != [] {
        var i :| 0 <= i < |gs| && gs[i] == c;
        assert members[0] in members;
        forall rec | rec in members
          ensures Field(rec, MetaOf(cols, c)) == Field(members[0], MetaOf(cols, c))
        {
          assert GroupFields(cols, gs, rec)[i] == GroupFields(cols, gs, members[0])[i];
        }
      }
  }

  lemma {:induction false} RowMeans(cols: seq<FieldMeta>, gs: seq<J.Column>, items: seq<Item>, members: seq<Bytes>)
    requires ItemsOk(cols, items) && Grouped(cols, gs) && AllLaid(cols, members) && Agreeing(cols, gs, members)
    ensures
      var row := RowValues(cols, gs, items, members);
      row.Some? ==> RowIs(cols, gs, items, members, row.value)
  {
    hide Summable, ItemValue, ItemIs, AllLaid, Agreeing, Grouped;
    if items != [] {
      var n := |items| - 1;
      assert items[n] in items;
      RowMeans(cols, gs, items[..n], members);
      ItemMeans(cols, gs, items[n], members);
      assert forall i :: 0 <= i < n ==> items[..n][i] == items[i];
    }
  }

  lemma MembersAgree(cols: seq<FieldMeta>, gs: seq<J.Column>, rows: seq<Bytes>, key: Bytes)
    requires Grouped(cols, gs) && AllLaid(cols, rows)
    ensures Agreeing(cols, gs, Members(cols, gs, rows, key))
  {
    hide KeyOf, GroupFields, Laid;
    var members := Members(cols, gs, rows, key);
    forall r, s | r in members && s in members
      ensures GroupFields(cols, gs, r) == GroupFields(cols, gs, s)
    {
      SameGroup(cols, gs, r, s);
    }
  }

  /** The groups that pass, in their order. */
  ghost function Shown(cols: seq<FieldMeta>, gs: seq<J.Column>, having: seq<seq<HavingCond>>, rows: seq<Bytes>,
                       keys: seq<Bytes>): (r: seq<Bytes>)
    requires Grouped(cols, gs) && AllLaid(cols, rows) && HavingOk(cols, having)
    ensures forall k :: k in r <==> k in keys && Passes(cols, gs, having, Members(cols, gs, rows, k)) == Some(true)
  {
    if keys == [] then []
    else
      var n := |keys| - 1;
      var init := Shown(cols, gs, having, rows, keys[..n]);
      assert keys == keys[..n] + [keys[n]];
      if Passes(cols, gs, having, Members(cols, gs, rows, keys[n])) == Some(true) then init + [keys[n]] else init
  }

  /** The groups that pass keep their order. */
  lemma {:induction false} ShownInOrder(cols: seq<FieldMeta>, gs: seq<J.Column>, having: seq<seq<HavingCond>>,
                                        rows: seq<Bytes>, keys: seq<Bytes>, i: nat, j: nat)
    requires Grouped(cols, gs) && AllLaid(cols, rows) && HavingOk(cols, having)
    requires i < j < |Shown(cols, gs, having, rows, keys)|
    ensures
      var shown := Shown(cols, gs, having, rows, keys);
      exists a, b :: 0 <= a < b < |keys| && keys[a] == shown[i] && keys[b] == shown[j]
  {
    hide Passes, Members, HavingOk, AllLaid, Grouped;
    var n := |keys| - 1;
    var init, shown := Shown(cols, gs, having, rows, keys[..n]), Shown(cols, gs, having, rows, keys);
    if j < |init| {
      ShownInOrder(cols, gs, having, rows, keys[..n], i, j);
      var a, b :| 0 <= a < b < n && keys[..n][a] == init[i] && keys[..n][b] == init[j];
      assert keys[a] == shown[i] && keys[b] == shown[j];
    } else {
      assert init[i] in keys[..n];
      var a :| 0 <= a < n && keys[..n][a] == init[i];
      assert keys[a] == shown[i] && keys[n] == shown[j];
    }
  }

  /** The rows of the answer are in the order in which their groups first occur. */
  lemma AnswerInOrder(cols: seq<FieldMeta>, gs: seq<J.Column>, items: seq<Item>, having: seq<seq<HavingCond>>,
                      rows: seq<Bytes>, i: nat, j: nat)
    requires Grouped(cols, gs) && AllLaid(cols, rows) && HavingOk(cols, having)
    requires i < j < |Shown(cols, gs, having, rows, GroupList(cols, gs, items, rows))|
    ensures
      var shown := Shown(cols, gs, having, rows, GroupList(cols, gs, items, rows));
      ComesFirst(cols, gs, rows, shown[i], shown[j])
  {
    hide Shown, Keys, ComesFirst, HavingOk, AllLaid, Grouped;
    var keys := GroupList(cols, gs, items, rows);
    ShownInOrder(cols, gs, having, rows, keys, i, j);
    KeysByFirst(cols, gs, rows);
  }

  /** One row per listed group, each item as its kind says of the group's records. */
  ghost predicate Reports(cols: seq<FieldMeta>, gs: seq<J.Column>, items: seq<Item>, rows: seq<Bytes>,
                          shown: seq<Bytes>, out: seq<seq<Value>>)
    requires Grouped(cols, gs) && AllLaid(cols, rows) && ItemsOk(cols, items)
  {
    |out| == |shown| && forall j :: 0 <= j < |out| ==> ReportsOne(cols, gs, items, rows, shown[j], out[j])
  }

  ghost predicate ReportsOne(cols: seq<FieldMeta>, gs: seq<J.Column>, items: seq<Item>, rows: seq<Bytes>, key: Bytes,
                             row: seq<Value>)
    requires Grouped(cols, gs) && AllLaid(cols, rows) && ItemsOk(cols, items)
  {
    var members := Members(cols, gs, rows, key);
    && (members != [] ==> IsGroup(cols, gs, rows, members))
    && RowIs(cols, gs, items, members, row)
  }

  /** The answer reports the groups that pass. */
  lemma {:induction false} AnswerReports(cols: seq<FieldMeta>, gs: seq<J.Column>, items: seq<Item>,
                                         having: seq<seq<HavingCond>>, rows: seq<Bytes>, keys: seq<Bytes>)
    requires Grouped(cols, gs) && AllLaid(cols, rows) && ItemsOk(cols, items) && HavingOk(cols, having)
    ensures
      var out := Answer(cols, gs, items, having, rows, keys);
      out.Some? ==> Reports(cols, gs, items, rows, Shown(cols, gs, having, rows, keys), out.value)
  {
    hide Members, Passes, RowValues, RowIs, IsGroup, AllLaid, Grouped, ItemsOk, HavingOk;
    if keys != [] {
      var n := |keys| - 1;
      AnswerReports(cols, gs, items, having, rows, keys[..n]);
      MembersAgree(cols, gs, rows, keys[n]);
      MembersAreGroup(cols, gs, rows, keys[n]);
      RowMeans(cols, gs, items, Members(cols, gs, rows, keys[n]));
    }
  }

  ghost predicate OnlyCounts(items: seq<Item>) {
    forall item <- items :: item.Agg? && (item.kind == COUNT || item.kind == COUNT_STAR)
  }

  /** The groups of a query; counting an empty input without GROUP BY has one, empty group. */
  ghost function GroupList(cols: seq<FieldMeta>, gs: seq<J.Column>, items: seq<Item>, rows: seq<Bytes>): seq<Bytes>
    requires Grouped(cols, gs) && AllLaid(cols, rows)
  {
    if rows == [] && gs == [] && OnlyCounts(items) then [ALL] else Keys(cols, gs, rows)
  }

  ghost predicate Counts(item: Item) {
    item.Agg? && (item.kind == COUNT || item.kind == COUNT_STAR)
  }

  /** An empty input gives one row, of zeros, for a list of counts without GROUP BY and HAVING, and no row when
      something else is selected or grouped by. */
  lemma EmptyInput(cols: seq<FieldMeta>, gs: seq<J.Column>, items: seq<Item>, having: seq<seq<HavingCond>>)
    requires Grouped(cols, gs) && ItemsOk(cols, items) && HavingOk(cols, having)
    ensures
      var out := Answer(cols, gs, items, having, [], GroupList(cols, gs, items, []));
      && (gs != [] || (exists item <- items :: !Counts(item)) ==> out == Some([]))
      && (gs == [] && having == [] && (forall item <- items :: Counts(item)) ==>
            out.Some? && |out.value| == 1 && AllZero(out.value[0], |items|))
  {
    if gs == [] && having == [] && forall item <- items :: Counts(item) {
      assert [ALL][..0] == [] && Members(cols, gs, [], ALL) == [];
      ZeroRow(cols, gs, items);
    }
  }

  ghost predicate AllZero(row: seq<Value>, n: nat) {
    |row| == n && forall i :: 0 <= i < n ==> row[i] == IntValue(0)
  }

  lemma {:induction false} ZeroRow(cols: seq<FieldMeta>, gs: seq<J.Column>, items: seq<Item>)
    requires ItemsOk(cols, items) && forall item <- items :: Counts(item)
    ensures RowValues(cols, gs, items, []).Some? && AllZero(RowValues(cols, gs, items, []).value, |items|)
  {
    if items != [] {
      var n := |items| - 1;
      assert items[n] in items && Counts(items[n]);
      ZeroRow(cols, gs, items[..n]);
    }
  }
}
