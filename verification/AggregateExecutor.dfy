/**
 The aggregation executor: one slot per different aggregate, one state per group and slot.
 */
module AggregateExecutor {
  import opened Common
  import opened Words
  import opened Aggregation
  import J = JoinPlans

  datatype AggSpec = AggSpec(kind: AggKind, meta: Option<FieldMeta>)

  datatype AggState = AggState(count: nat, sum: real, minSet: bool, min: real, maxSet: bool, max: real)

  const FRESH := AggState(0, 0.0, false, 0.0, false, 0.0)

  datatype GroupState = GroupState(fields: seq<Bytes>, states: seq<AggState>)

  // ---- Slots ------------------------------------------------------------------------------------------

  function Digit(kind: AggKind): char {
    match kind
    case SUM => '1'
    case COUNT => '2'
    case AVG => '3'
    case MIN => '4'
    case MAX => '5'
    case COUNT_STAR => '6'
  }

  /** The name under which an aggregate is registered. */
  function AggKey(kind: AggKind, c: J.Column): string {
    if kind == COUNT_STAR then [Digit(kind)] else [Digit(kind), '|'] + c.tab + "." + c.col
  }

  /** Table names contain no dot. */
  predicate Plainly(c: J.Column) {
    '.' !in c.tab
  }

  lemma DotSplits(a: string, b: string, c: string, d: string)
    requires a + "." + b == c + "." + d && '.' !in a && '.' !in c && |a| <= |c|
    ensures a == c && b == d
  {
    var s := a + "." + b;
    assert s[|a|] == '.' && forall i :: 0 <= i < |c| ==> s[i] == c[i];
    assert |a| == |c|;
    assert a == s[..|a|] && c == s[..|a|];
    assert b == s[|a| + 1..] && d == s[|a| + 1..];
  }

  /** Different aggregates have different names. */
  lemma AggKeyInjective(kind: AggKind, c: J.Column, kind': AggKind, c': J.Column)
    requires AggKey(kind, c) == AggKey(kind', c') && Plainly(c) && Plainly(c')
    ensures kind == kind' && (kind == COUNT_STAR || c == c')
  {
    assert AggKey(kind, c)[0] == Digit(kind) && AggKey(kind', c')[0] == Digit(kind');
    if kind != COUNT_STAR {
      assert AggKey(kind, c)[2..] == c.tab + "." + c.col;
      assert AggKey(kind', c')[2..] == c'.tab + "." + c'.col;
      if |c.tab| <= |c'.tab| {
        DotSplits(c.tab, c.col, c'.tab, c'.col);
      } else {
        DotSplits(c'.tab, c'.col, c.tab, c.col);
      }
    }
  }

  function SpecOf(cols: seq<FieldMeta>, kind: AggKind, c: J.Column): AggSpec
    requires Summable(cols, Agg(kind, c))
  {
    AggSpec(kind, if kind == COUNT_STAR then None else Some(MetaOf(cols, c)))
  }

  // ---- States -----------------------------------------------------------------------------------------

  ghost predicate SpecOk(cols: seq<FieldMeta>, spec: AggSpec) {
    spec.kind != COUNT_STAR ==>
      spec.meta.Some? && spec.meta.value in cols && (spec.kind != COUNT ==> spec.meta.value.colType != TEXT)
  }

  /** Takes one more record into a state. */
  function Update(cols: seq<FieldMeta>, state: AggState, spec: AggSpec, rec: Bytes): AggState
    requires SpecOk(cols, spec) && Laid(cols, rec)
  {
    if spec.kind == COUNT_STAR || spec.kind == COUNT then state.(count := state.count + 1)
    else
      var v := NumberOf(spec.meta.value.colType, Field(rec, spec.meta.value));
      AggState(if spec.kind == AVG then state.count + 1 else state.count,
               if spec.kind == SUM || spec.kind == AVG then state.sum + v else state.sum,
               true, if !state.minSet || v < state.min then v else state.min,
               true, if !state.maxSet || v > state.max then v else state.max)
  }

  /** The state of a slot after the members of a group. */
  ghost predicate Tracks(cols: seq<FieldMeta>, state: AggState, spec: AggSpec, members: seq<Bytes>)
    requires SpecOk(cols, spec) && AllLaid(cols, members)
  {
    if spec.kind == COUNT_STAR || spec.kind == COUNT then state.count == |members|
    else
      var xs := Numbers(cols, spec.meta.value, members);
      && (spec.kind == AVG ==> state.count == |members|)
      && (spec.kind == SUM || spec.kind == AVG ==> state.sum == SumOf(xs))
      && state.minSet == state.maxSet == (members != [])
      && state.min == Least(xs) && state.max == Greatest(xs)
  }

  lemma UpdateTracks(cols: seq<FieldMeta>, state: AggState, spec: AggSpec, members: seq<Bytes>, rec: Bytes)
    requires SpecOk(cols, spec) && AllLaid(cols, members) && Laid(cols, rec) && Tracks(cols, state, spec, members)
    ensures AllLaid(cols, members + [rec]) && Tracks(cols, Update(cols, state, spec, rec), spec, members + [rec])
  {
    hide Numbers, SumOf, Least, Greatest, NumberOf;
    if spec.kind != COUNT_STAR && spec.kind != COUNT {
      NumbersGrow(cols, spec.meta.value, members, rec);
      var m := spec.meta.value;
      FoldsGrow(Numbers(cols, m, members), NumberOf(m.colType, Field(rec, m)));
    }
  }

  lemma FoldsGrow(xs: seq<real>, v: real)
    ensures SumOf(xs + [v]) == SumOf(xs) + v
    ensures Least(xs + [v]) == if xs == [] || v < Least(xs) then v else Least(xs)
    ensures Greatest(xs + [v]) == if xs == [] || v > Greatest(xs) then v else Greatest(xs)
  {
    assert (xs + [v])[..|xs|] == xs;
  }

  lemma NumbersGrow(cols: seq<FieldMeta>, meta: FieldMeta, members: seq<Bytes>, rec: Bytes)
    requires meta in cols && meta.colType != TEXT && AllLaid(cols, members) && Laid(cols, rec)
    ensures AllLaid(cols, members + [rec])
    ensures Numbers(cols, meta, members + [rec]) ==
            Numbers(cols, meta, members) + [NumberOf(meta.colType, Field(rec, meta))]
  {
  }

  function OnlyCounting(items: seq<Item>): (r: bool)
    ensures r <==> OnlyCounts(items)
  {
    items == [] ||
    (items[0].Agg? && (items[0].kind == COUNT || items[0].kind == COUNT_STAR) && OnlyCounting(items[1..]))
  }

  class AggExecutor {
    const cols: seq<FieldMeta>
    const gs: seq<J.Column>
    const items: seq<Item>
    const having: seq<seq<HavingCond>>
    var specs: seq<AggSpec>
    var index: map<string, nat>
    var out: seq<seq<Value>>
    var cursor: nat

    ghost predicate Query() {
      Grouped(cols, gs) && ItemsOk(cols, items) && HavingOk(cols, having) && Named(items) &&
      forall conds <- having :: NamedConds(conds)
    }

    static ghost predicate Named(items: seq<Item>) {
      forall item <- items :: Plainly(item.column)
    }

    static ghost predicate NamedConds(conds: seq<HavingCond>) {
      forall cond <- conds :: Plainly(cond.lhs.column) && (cond.rhs.Expr? ==> Plainly(cond.rhs.item.column))
    }

    /** Every registered name leads to the slot of its aggregate. */
    ghost predicate Valid()
      reads this`specs, this`index
    {
      && Query()
      && (forall k <- index :: index[k] < |specs|)
      && (forall i :: 0 <= i < |specs| ==> SpecOk(cols, specs[i]))
      && (forall kind, c :: AggKey(kind, c) in index && Plainly(c) && Summable(cols, Agg(kind, c)) ==>
            specs[index[AggKey(kind, c)]] == SpecOf(cols, kind, c))
    }

    ghost predicate Registered(item: Item)
      reads this`specs, this`index
    {
      item.Agg? ==> AggKey(item.kind, item.column) in index
    }

    ghost predicate Ready()
      reads this`specs, this`index
    {
      Valid() && (forall item <- items :: Registered(item)) && forall conds <- having :: RegisteredAll(conds)
    }

    ghost predicate RegisteredAll(conds: seq<HavingCond>)
      reads this`specs, this`index
    {
      forall cond <- conds :: Registered(cond.lhs) && (cond.rhs.Expr? ==> Registered(cond.rhs.item))
    }

    /** The slot of an aggregate, made when there is none. */
    method EnsureAggSpec(kind: AggKind, c: J.Column) returns (idx: nat)
      requires Valid() && Summable(cols, Agg(kind, c)) && Plainly(c)
      modifies this`specs, this`index
      ensures Valid() && old(index.Keys) <= index.Keys && AggKey(kind, c) in index
      ensures idx < |specs| && specs[idx] == SpecOf(cols, kind, c)
      ensures AggKey(kind, c) in old(index) ==> specs == old(specs) && index == old(index)
    {
      var key := AggKey(kind, c);
      if key in index {
        return index[key];
      }
      forall kind', c' | AggKey(kind', c') == key && Plainly(c')
        ensures kind' == kind && (kind == COUNT_STAR || c' == c)
      {
        AggKeyInjective(kind', c', kind, c);
      }
      idx := |specs|;
      specs := specs + [SpecOf(cols, kind, c)];
      index := index[key := idx];
    }

    method RegisterItem(item: Item)
      requires Valid() && Summable(cols, item) && Plainly(item.column)
      modifies this`specs, this`index
      ensures Valid() && old(index.Keys) <= index.Keys && Registered(item)
    {
      if item.Agg? {
        var _ := EnsureAggSpec(item.kind, item.column);
      }
    }

    /** Registers every aggregate of the select list and of HAVING. */
    constructor (cols: seq<FieldMeta>, gs: seq<J.Column>, items: seq<Item>, having: seq<seq<HavingCond>>)
      requires Grouped(cols, gs) && ItemsOk(cols, items) && HavingOk(cols, having)
      requires Named(items) && forall conds <- having :: NamedConds(conds)
      ensures Ready()
      ensures this.cols == cols && this.gs == gs && this.items == items && this.having == having
    {
      this.cols, this.gs, this.items, this.having := cols, gs, items, having;
      specs, index := [], map[];
      new;
      for i := 0 to |items|
        invariant Valid() && forall k :: 0 <= k < i ==> Registered(items[k])
      {
        assert items[i] in items;
        RegisterItem(items[i]);
      }
      for i := 0 to |having|
        invariant Valid() && (forall k :: 0 <= k < |items| ==> Registered(items[k]))
        invariant forall k :: 0 <= k < i ==> RegisteredAll(having[k])
      {
        RegisterConds(having[i]);
      }
    }

    method RegisterConds(conds: seq<HavingCond>)
      requires Valid() && CondsOk(cols, conds) && NamedConds(conds)
      modifies this`specs, this`index
      ensures Valid() && old(index.Keys) <= index.Keys && RegisteredAll(conds)
    {
      for i := 0 to |conds|
        invariant Valid() && old(index.Keys) <= index.Keys && RegisteredAll(conds[..i])
      {
        assert conds[i] in conds;
        RegisterItem(conds[i].lhs);
        if conds[i].rhs.Expr? {
          RegisterItem(conds[i].rhs.item);
        }
        assert conds[..i + 1] == conds[..i] + [conds[i]];
      }
      assert conds[..|conds|] == conds;
    }

    // ---- Groups ---------------------------------------------------------------------------------------

    /** A group's states cover its members, in every slot. */
    ghost predicate GroupOk(g: GroupState, members: seq<Bytes>)
      reads this`specs, this`index
      requires Valid() && AllLaid(cols, members)
    {
      && |g.states| == |specs|
      && (forall i :: 0 <= i < |specs| ==> Tracks(cols, g.states[i], specs[i], members))
      && (members != [] ==> Laid(cols, members[0]) && g.fields == GroupFields(cols, gs, members[0]))
    }

    /** Takes a record into all slots of a group. */
    method UpdateStates(g: GroupState, rec: Bytes, ghost members: seq<Bytes>) returns (g': GroupState)
      requires Valid() && AllLaid(cols, members) && Laid(cols, rec) && GroupOk(g, members)
      requires members == [] ==> g.fields == GroupFields(cols, gs, rec)
      ensures AllLaid(cols, members + [rec]) && GroupOk(g', members + [rec])
    {
      hide Tracks, Laid;
      var states := g.states;
      for i := 0 to |specs|
        invariant |states| == |specs| && AllLaid(cols, members + [rec])
        invariant forall k :: 0 <= k < i ==> Tracks(cols, states[k], specs[k], members + [rec])
        invariant forall k :: i <= k < |specs| ==> Tracks(cols, states[k], specs[k], members)
      {
        UpdateTracks(cols, states[i], specs[i], members, rec);
        states := states[i := Update(cols, states[i], specs[i], rec)];
      }
      g' := g.(states := states);
    }

    /** The groups of the records read so far. */
    ghost predicate Collected(groups: map<Bytes, GroupState>, order: seq<Bytes>, rows: seq<Bytes>)
      reads this`specs, this`index
      requires Valid() && AllLaid(cols, rows)
    {
      && order == Keys(cols, gs, rows) && (forall k :: k in groups <==> k in order)
      && forall k <- order :: OneOk(groups, rows, k)
    }

    ghost predicate OneOk(groups: map<Bytes, GroupState>, rows: seq<Bytes>, k: Bytes)
      reads this`specs, this`index
      requires Valid() && AllLaid(cols, rows)
    {
      k in groups && GroupOk(groups[k], Members(cols, gs, rows, k))
    }

    method AddRecord(groups: map<Bytes, GroupState>, order: seq<Bytes>, rec: Bytes, ghost rows: seq<Bytes>)
      returns (groups': map<Bytes, GroupState>, order': seq<Bytes>)
      requires Valid() && AllLaid(cols, rows) && Laid(cols, rec) && Collected(groups, order, rows)
      ensures AllLaid(cols, rows + [rec]) && Collected(groups', order', rows + [rec])
    {
      hide Laid, GroupOk, KeyOf, Keys, Members, SpecOk, Summable;
      groups', order' := groups, order;
      var key := KeyOf(cols, gs, rec);
      ghost var members := Members(cols, gs, rows, key);
      KeysExact(cols, gs, rows);
      if key !in groups' {
        var g := GroupState(GroupFields(cols, gs, rec), seq(|specs|, _ => FRESH));
        FreshOk(g, rec);
        order' := order' + [key];
        groups' := groups'[key := g];
      }
      assert GroupOk(groups'[key], members) by {
        assert key in groups ==> OneOk(groups, rows, key);
      }
      var g := UpdateStates(groups'[key], rec, members);
      groups' := groups'[key := g];
      KeysGrow(cols, gs, rows, rec);
      forall k | k in order'
        ensures OneOk(groups', rows + [rec], k)
      {
        MembersGrow(cols, gs, rows, rec, k);
        assert k != key ==> OneOk(groups, rows, k);
      }
    }

    lemma FreshOk(g: GroupState, rec: Bytes)
      requires Valid() && Laid(cols, rec) && g == GroupState(GroupFields(cols, gs, rec), seq(|specs|, _ => FRESH))
      ensures GroupOk(g, [])
    {
    }

    // ---- Evaluation -----------------------------------------------------------------------------------

    /** A group with its members: only the group of an empty input has none. */
    ghost predicate Evaluable(g: GroupState, members: seq<Bytes>)
      reads this`specs, this`index
    {
      Valid() && AllLaid(cols, members) && GroupOk(g, members) && (members == [] ==> gs == [])
    }

    method ValueFromNonAgg(c: J.Column, g: GroupState, ghost members: seq<Bytes>) returns (v: Option<Value>)
      requires Evaluable(g, members) && Exists(cols, c)
      ensures v == ItemValue(cols, gs, Plain(c), members)
    {
      assert members != [] ==> members[0] in members;
      for i := 0 to |gs|
        invariant c !in gs[..i]
      {
        if gs[i] == c {
          var m := MetaOf(cols, c);
          return Some(ValueOf(m.colType, g.fields[i]));
        }
      }
      return None;
    }

    /** Reads an aggregate from its slot; the slot exists, so nothing is registered now. */
    method ValueFromAgg(kind: AggKind, c: J.Column, g: GroupState, ghost members: seq<Bytes>) returns (v: Value)
      requires Evaluable(g, members) && Summable(cols, Agg(kind, c)) && Plainly(c) && AggKey(kind, c) in index
      modifies this`specs, this`index
      ensures specs == old(specs) && index == old(index)
      ensures v == AggValue(cols, kind, c, members) && IsAggregate(cols, kind, c, members, v)
    {
      AggregateMeans(cols, kind, c, members);
      hide IsAggregate, Numbers, NumberOf, AggKey;
      var idx := EnsureAggSpec(kind, c);
      var st := g.states[idx];
      assert Tracks(cols, st, specs[idx], members);
      match kind
      case COUNT | COUNT_STAR => v := IntValue(st.count);
      case SUM => v := NumberValue(specs[idx].meta.value.colType, st.sum);
      case AVG => v := FloatValue(if st.count == 0 then 0.0 else st.sum / st.count as real);
      case MIN => v := NumberValue(specs[idx].meta.value.colType, st.min);
      case MAX => v := NumberValue(specs[idx].meta.value.colType, st.max);
    }

    method EvalItem(item: Item, g: GroupState, ghost members: seq<Bytes>) returns (v: Option<Value>)
      requires Evaluable(g, members) && Summable(cols, item) && Plainly(item.column) && Registered(item)
      modifies this`specs, this`index
      ensures specs == old(specs) && index == old(index)
      ensures v == ItemValue(cols, gs, item, members)
    {
      match item
      case Plain(c) => v := ValueFromNonAgg(c, g, members);
      case Agg(kind, c) =>
        var w := ValueFromAgg(kind, c, g, members);
        v := Some(w);
    }

    method EvalCond(cond: HavingCond, g: GroupState, ghost members: seq<Bytes>) returns (v: Option<bool>)
      requires Evaluable(g, members) && CondsOk(cols, [cond]) && NamedConds([cond]) && RegisteredAll([cond])
      modifies this`specs, this`index
      ensures specs == old(specs) && index == old(index)
      ensures v == CondValue(cols, gs, cond, members)
    {
      assert cond in [cond];
      var l := EvalItem(cond.lhs, g, members);
      var r: Option<Value>;
      match cond.rhs {
        case Literal(value) => r := Some(value);
        case Expr(item) => r := EvalItem(item, g, members);
      }
      v := if l.None? || r.None? then None else CompareValues(l.value, r.value, cond.op);
    }

    method EvalAnd(conds: seq<HavingCond>, g: GroupState, ghost members: seq<Bytes>) returns (v: Option<bool>)
      requires Evaluable(g, members) && CondsOk(cols, conds) && NamedConds(conds) && RegisteredAll(conds)
      modifies this`specs, this`index
      ensures specs == old(specs) && index == old(index)
      ensures v == AndValue(cols, gs, conds, members)
    {
      hide CondValue, CondOk, Plainly, GroupOk, AllLaid;
      for i := 0 to |conds|
        invariant specs == old(specs) && index == old(index)
        invariant AndValue(cols, gs, conds, members) == AndValue(cols, gs, conds[i..], members)
      {
        assert conds[i] in conds && conds[i..][1..] == conds[i + 1..];
        v := EvalCond(conds[i], g, members);
        if v != Some(true) {
          return;
        }
      }
      v := Some(true);
    }

    method PassHaving(g: GroupState, ghost members: seq<Bytes>) returns (v: Option<bool>)
      requires Ready() && Evaluable(g, members)
      modifies this`specs, this`index
      ensures specs == old(specs) && index == old(index)
      ensures v == Passes(cols, gs, having, members)
    {
      hide AndValue, CondsOk, NamedConds, GroupOk, AllLaid;
      if having == [] {
        return Some(true);
      }
      for i := 0 to |having|
        invariant specs == old(specs) && index == old(index)
        invariant OrValue(cols, gs, having, members) == OrValue(cols, gs, having[i..], members)
      {
        assert having[i] in having && having[i..][1..] == having[i + 1..];
        v := EvalAnd(having[i], g, members);
        if v != Some(false) {
          return;
        }
      }
      v := Some(false);
    }

    method OutputRow(g: GroupState, ghost members: seq<Bytes>) returns (row: Option<seq<Value>>)
      requires Ready() && Evaluable(g, members)
      modifies this`specs, this`index
      ensures specs == old(specs) && index == old(index)
      ensures row == RowValues(cols, gs, items, members)
    {
      hide GroupOk, AllLaid, Summable, ItemValue, Plainly;
      var values := [];
      for i := 0 to |items|
        invariant specs == old(specs) && index == old(index)
        invariant ItemsOk(cols, items[..i]) && RowValues(cols, gs, items[..i], members) == Some(values)
      {
        assert items[i] in items && items[..i + 1][..i] == items[..i];
        var v := EvalItem(items[i], g, members);
        if v.None? {
          RowFails(cols, gs, items, members, i + 1);
          return None;
        }
        values := values + [v.value];
      }
      assert items[..|items|] == items;
      row := Some(values);
    }

    /** The groups to be output: each listed key has its group. */
    ghost predicate Listed(groups: map<Bytes, GroupState>, order: seq<Bytes>, rows: seq<Bytes>)
      reads this`specs, this`index
    {
      Valid() && AllLaid(cols, rows) &&
      forall k <- order :: k in groups && Evaluable(groups[k], Members(cols, gs, rows, k))
    }

    method CollectGroups(rows: seq<Bytes>) returns (groups: map<Bytes, GroupState>, order: seq<Bytes>)
      requires Ready() && AllLaid(cols, rows)
      ensures order == GroupList(cols, gs, items, rows) && Listed(groups, order, rows)
    {
      hide GroupOk, Laid;
      groups, order := map[], [];
      for i := 0 to |rows|
        invariant AllLaid(cols, rows[..i]) && Collected(groups, order, rows[..i])
      {
        assert rows[i] in rows && rows[..i + 1] == rows[..i] + [rows[i]];
        groups, order := AddRecord(groups, order, rows[i], rows[..i]);
      }
      assert rows[..|rows|] == rows;
      KeysExact(cols, gs, rows);
      assert forall k <- order :: OneOk(groups, rows, k) && Members(cols, gs, rows, k) != [];
      assert rows != [] ==> KeyOf(cols, gs, rows[|rows| - 1]) in order;
      assert order == [] <==> groups == map[] by {
        assert order != [] ==> order[0] in groups;
      }
      if groups == map[] && gs == [] && OnlyCounting(items) {
        var g := GroupState([], seq(|specs|, _ => FRESH));
        EmptyOk(g);
        order := order + [ALL];
        groups := groups[ALL := g];
      }
    }

    lemma EmptyOk(g: GroupState)
      requires Valid() && g == GroupState([], seq(|specs|, _ => FRESH))
      ensures GroupOk(g, [])
    {
    }

    /** Groups the records and computes the answer: one row per group that passes HAVING. */
    method BeginTuple(rows: seq<Bytes>) returns (ok: bool)
      requires Ready() && AllLaid(cols, rows)
      modifies this
      ensures Ready() && specs == old(specs) && index == old(index) && cursor == 0
      ensures ok ==> Answer(cols, gs, items, having, rows, GroupList(cols, gs, items, rows)) == Some(out)
      ensures
        var keys := GroupList(cols, gs, items, rows);
        ok ==> Reports(cols, gs, items, rows, Shown(cols, gs, having, rows, keys), out)
      ensures !ok ==> Answer(cols, gs, items, having, rows, GroupList(cols, gs, items, rows)) == None
    {
      hide GroupOk, Evaluable, AllLaid, Passes, RowValues, GroupList, ItemsOk, HavingOk, Members, SpecOk, Summable;
      hide Reports, Shown;
      cursor, out := 0, [];
      var groups, order := CollectGroups(rows);
      for i := 0 to |order|
        invariant Ready() && specs == old(specs) && index == old(index) && cursor == 0
        invariant Listed(groups, order, rows)
        invariant Answer(cols, gs, items, having, rows, order[..i]) == Some(out)
      {
        assert order[i] in order && order[..i + 1][..i] == order[..i];
        ghost var members := Members(cols, gs, rows, order[i]);
        var pass := PassHaving(groups[order[i]], members);
        var row := Some([]);
        if pass == Some(true) {
          row := OutputRow(groups[order[i]], members);
        }
        if pass.None? || row.None? {
          AnswerFails(cols, gs, items, having, rows, order, i + 1);
          return false;
        }
        if pass.value {
          out := out + [row.value];
        }
      }
      assert order[..|order|] == order;
      AnswerReports(cols, gs, items, having, rows, order);
      ok := true;
    }

    method NextTuple()
      modifies this`cursor
      ensures cursor == old(cursor) + 1
    {
      cursor := cursor + 1;
    }

    predicate IsEnd()
      reads this
    {
      cursor >= |out|
    }

    method Next() returns (row: Option<seq<Value>>)
      ensures row == if IsEnd() then None else Some(out[cursor])
    {
      row := if IsEnd() then None else Some(out[cursor]);
    }
  }
}
