/** Deciding whether an action's conditions are met by an event. */
module Actions {
  import opened Ctypes

  /** A row of the query over conditions; holds is what checking the condition against the event yields. */
  datatype Condition = Condition(kind: byte, holds: bool)

  datatype EvalType = AndOr | And | Or | Unknown

  /** The query orders its rows by condition type. */
  ghost predicate Ordered(rows: seq<Condition>) {
    forall i, j :: 0 <= i < j < |rows| ==> rows[i].kind <= rows[j].kind
  }

  /** Some condition of this type holds. */
  ghost predicate SomeHolds(rows: seq<Condition>, kind: byte) {
    exists i :: 0 <= i < |rows| && rows[i].kind == kind && rows[i].holds
  }

  /** Of every type that occurs some condition holds. */
  ghost predicate EachTypeHolds(rows: seq<Condition>) {
    forall i :: 0 <= i < |rows| ==> SomeHolds(rows, rows[i].kind)
  }

  ghost predicate AllHold(rows: seq<Condition>) {
    forall i :: 0 <= i < |rows| ==> rows[i].holds
  }

  ghost predicate AnyHolds(rows: seq<Condition>) {
    exists i :: 0 <= i < |rows| && rows[i].holds
  }

  /** What the evaluation type means. */
  ghost predicate Meets(rows: seq<Condition>, evaltype: EvalType) {
    rows == [] ||
    match evaltype
    case AndOr => EachTypeHolds(rows)
    case And => AllHold(rows)
    case Or => AnyHolds(rows)
    case Unknown => false
  }

  /** The type that marks that no row has been seen; a condition of this type is taken to follow one of its type. */
  const NO_TYPE: byte := 0xff

  /** All types before the one that occurs last have a condition that holds. */
  ghost predicate EarlierTypesHold(rows: seq<Condition>) {
    forall i :: 0 <= i < |rows| && rows[i].kind != rows[|rows| - 1].kind ==> SomeHolds(rows, rows[i].kind)
  }

  /** The state of the loop after these rows: ret says whether their last type has a condition that holds. */
  ghost predicate Evaluated(rows: seq<Condition>, ret: bool, old_type: byte) {
    if rows == [] then ret && old_type == NO_TYPE
    else
      && old_type == rows[|rows| - 1].kind
      && (rows[0].kind != NO_TYPE ==> EarlierTypesHold(rows) && (ret <==> SomeHolds(rows, old_type)))
      && (rows[0].kind == NO_TYPE ==> ret)
  }

  lemma SomeHoldsAppend(rows: seq<Condition>, row: Condition, kind: byte)
    ensures SomeHolds(rows + [row], kind) <==> SomeHolds(rows, kind) || (row.kind == kind && row.holds)
  {
    var all := rows + [row];
    if SomeHolds(rows, kind) {
      var i :| 0 <= i < |rows| && rows[i].kind == kind && rows[i].holds;
      assert all[i] == rows[i];
    }
    if row.kind == kind && row.holds { assert all[|rows|] == row; }
  }

  /** One more condition of the same type: a disjunction. */
  lemma SameType(rows: seq<Condition>, row: Condition, ret: bool, old_type: byte)
    requires Evaluated(rows, ret, old_type) && Ordered(rows + [row]) && old_type == row.kind
    ensures Evaluated(rows + [row], ret || row.holds, row.kind)
  {
    var all := rows + [row];
    SomeHoldsAppend(rows, row, row.kind);
    if rows != [] && rows[0].kind != NO_TYPE {
      forall i | 0 <= i < |all| && all[i].kind != row.kind
        ensures SomeHolds(all, all[i].kind)
      {
        assert all[i] == rows[i];
        SomeHoldsAppend(rows, row, all[i].kind);
      }
    }
  }

  /** A condition of a new type after one that is met: a conjunction. */
  lemma NewType(rows: seq<Condition>, row: Condition, old_type: byte)
    requires Evaluated(rows, true, old_type) && Ordered(rows + [row]) && old_type != row.kind
    ensures Evaluated(rows + [row], row.holds, row.kind)
  {
    var all := rows + [row];
    assert all[0].kind <= all[|rows|].kind && all[|rows|] == row;
    if rows != [] { assert all[0] == rows[0] && all[|rows| - 1] == rows[|rows| - 1]; }
    NotBefore(rows, row, old_type);
    SomeHoldsAppend(rows, row, row.kind);
    forall i | 0 <= i < |all| && all[i].kind != row.kind
      ensures SomeHolds(all, all[i].kind)
    {
      assert all[i] == rows[i];
      SomeHoldsAppend(rows, row, all[i].kind);
    }
  }

  lemma NotBefore(rows: seq<Condition>, row: Condition, old_type: byte)
    requires Evaluated(rows, true, old_type) && Ordered(rows + [row]) && old_type != row.kind
    ensures !SomeHolds(rows, row.kind)
  {
    var all := rows + [row];
    forall i | 0 <= i < |rows|
      ensures rows[i].kind != row.kind
    {
      assert rows[i] == all[i] && rows[|rows| - 1] == all[|rows| - 1] && row == all[|rows|];
      assert all[i].kind <= old_type && (i < |rows| - 1 ==> all[|rows| - 1].kind <= all[|rows|].kind);
    }
  }

  /** A type without a condition that holds settles the answer when the next type begins. */
  lemma TypeFails(rows: seq<Condition>, n: nat, old_type: byte)
    requires n < |rows| && Evaluated(rows[..n], false, old_type) && Ordered(rows) && old_type != rows[n].kind
    ensures !EachTypeHolds(rows) && rows[0].kind != NO_TYPE
  {
    var seen := rows[..n];
    assert rows[n - 1] == seen[n - 1];
    forall i | 0 <= i < |rows|
      ensures !(rows[i].kind == old_type && rows[i].holds)
    {
      if i < n {
        assert seen[i] == rows[i];
      } else {
        assert rows[n - 1].kind <= rows[n].kind;
        assert n < i ==> rows[n].kind <= rows[i].kind;
      }
    }
  }

  lemma EvaluatedAll(rows: seq<Condition>, ret: bool, old_type: byte)
    requires Evaluated(rows, ret, old_type)
    ensures ret <==> EachTypeHolds(rows) || (rows != [] && rows[0].kind == NO_TYPE)
  {
    if rows != [] && ret && rows[0].kind != NO_TYPE {
      forall i | 0 <= i < |rows|
        ensures SomeHolds(rows, rows[i].kind)
      {
      }
    }
  }

  /** The loop after n rows: whether it has settled the answer, or what the rows so far come to. */
  ghost predicate Deciding(rows: seq<Condition>, evaltype: EvalType, n: nat, ret: bool, exit: bool, old_type: byte) {
    && n <= |rows|
    && forall i {:trigger Unfolded(i)} :: i == n && Unfolded(i) ==>
         match evaltype
         case AndOr =>
           if exit then !ret && !EachTypeHolds(rows) && rows[0].kind != NO_TYPE else Evaluated(rows[..i], ret, old_type)
         case And => if exit then !ret && !AllHold(rows) else ret && AllHold(rows[..i])
         case Or => if exit then ret && AnyHolds(rows) else (ret <==> i == 0) && !AnyHolds(rows[..i])
         case Unknown => (exit <==> i > 0) && (ret <==> !exit)
  }

  lemma AndOrStep(rows: seq<Condition>, n: nat, ret: bool, old_type: byte)
    requires Deciding(rows, AndOr, n, ret, false, old_type) && n < |rows| && Ordered(rows)
    ensures var row := rows[n];
            if old_type == row.kind then Deciding(rows, AndOr, n + 1, ret || row.holds, false, row.kind)
            else Deciding(rows, AndOr, n + 1, ret && row.holds, !ret, row.kind)
  {
    assert Unfolded(n);
    var row := rows[n];
    assert rows[..n + 1] == rows[..n] + [row];
    if old_type == row.kind {
      SameType(rows[..n], row, ret, old_type);
    } else if ret {
      NewType(rows[..n], row, old_type);
    } else {
      TypeFails(rows, n, old_type);
    }
  }

  lemma OtherStep(rows: seq<Condition>, evaltype: EvalType, n: nat, ret: bool, old_type: byte)
    requires Deciding(rows, evaltype, n, ret, false, old_type) && n < |rows| && evaltype != AndOr
    ensures var holds := evaltype != Unknown && rows[n].holds;
            Deciding(rows, evaltype, n + 1, holds, if evaltype == Or then holds else !holds, old_type)
  {
    assert Unfolded(n);
    assert rows[..n + 1] == rows[..n] + [rows[n]];
  }

  lemma Decided(rows: seq<Condition>, evaltype: EvalType, n: nat, ret: bool, exit: bool, old_type: byte)
    requires Deciding(rows, evaltype, n, ret, exit, old_type) && (exit || n == |rows|)
    ensures ret <==> Meets(rows, evaltype) || (rows != [] && rows[0].kind == NO_TYPE && evaltype == AndOr)
  {
    assert Unfolded(n);
    if n == |rows| { assert rows[..n] == rows; }
    if evaltype == AndOr && !exit { EvaluatedAll(rows, ret, old_type); }
  }

  /** The answer is the one the evaluation type means, except that conditions of a single type with the number 255
      are taken to be met. */
  method CheckActionConditions(rows: seq<Condition>, evaltype: EvalType) returns (ret: bool)
    requires Ordered(rows)
    ensures ret <==> Meets(rows, evaltype) || (rows != [] && rows[0].kind == NO_TYPE && evaltype == AndOr)
  {
    ret := true;
    var exit, old_type, n := false, NO_TYPE, 0;
    while n < |rows| && !exit
      invariant Deciding(rows, evaltype, n, ret, exit, old_type)
    {
      var row := rows[n];
      if evaltype == AndOr { AndOrStep(rows, n, ret, old_type); } else { OtherStep(rows, evaltype, n, ret, old_type); }
      match evaltype {
        case AndOr =>
          if old_type == row.kind {
            if row.holds {
              ret := true;
            }
          } else {
            if !ret {
              exit := true;
            } else if !row.holds {
              ret := false;
            }
          }
          old_type := row.kind;
        case And =>
          if !row.holds {
            ret := false;
            exit := true;
          } else {
            ret := true;
          }
        case Or =>
          if row.holds {
            ret := true;
            exit := true;
          } else {
            ret := false;
          }
        case Unknown =>
          ret := false;
          exit := true;
      }
      n := n + 1;
    }
    Decided(rows, evaltype, n, ret, exit, old_type);
  }

  /** When the exception matters: the conditions are all of the type 255, and none of them holds. */
  lemma OnlyTypeIsNoType(rows: seq<Condition>)
    requires Ordered(rows) && rows != [] && rows[0].kind == NO_TYPE
    ensures Meets(rows, AndOr) <==> AnyHolds(rows)
    ensures forall i :: 0 <= i < |rows| ==> rows[i].kind == NO_TYPE
  {
    forall i | 0 <= i < |rows|
      ensures rows[i].kind == NO_TYPE
    {
      assert i > 0 ==> rows[0].kind <= rows[i].kind;
    }
    if AnyHolds(rows) {
      var k :| 0 <= k < |rows| && rows[k].holds;
      assert rows[k].kind == NO_TYPE && SomeHolds(rows, NO_TYPE);
    }
  }

  /** One condition of the type 255 that does not hold: it should not be met, and is. */
  method NoTypeIsMet() returns (ret: bool)
    ensures ret && !Meets([Condition(NO_TYPE, false)], AndOr)
  {
    var rows := [Condition(NO_TYPE, false)];
    OnlyTypeIsNoType(rows);
    ret := CheckActionConditions(rows, AndOr);
  }

  /** Neither the order within a type nor repetitions change the answer: only the set of rows counts. */
  lemma OrderIsIrrelevant(a: seq<Condition>, b: seq<Condition>, evaltype: EvalType)
    requires forall row :: row in a <==> row in b
    ensures Meets(a, evaltype) <==> Meets(b, evaltype)
  {
    if Meets(a, evaltype) { MeetsAlso(a, b, evaltype); }
    if Meets(b, evaltype) { MeetsAlso(b, a, evaltype); }
  }

  lemma EmptyAlso(a: seq<Condition>, b: seq<Condition>)
    requires forall row :: row in a <==> row in b
    ensures a == [] <==> b == []
  {
    if a != [] { assert a[0] in b; }
    if b != [] { assert b[0] in a; }
  }

  lemma MeetsAlso(a: seq<Condition>, b: seq<Condition>, evaltype: EvalType)
    requires (forall row :: row in a <==> row in b) && Meets(a, evaltype)
    ensures Meets(b, evaltype)
  {
    EmptyAlso(a, b);
    if a != [] {
      match evaltype {
        case AndOr =>
          forall i | 0 <= i < |b|
            ensures SomeHolds(b, b[i].kind)
          {
            assert b[i] in a;
            var j :| 0 <= j < |a| && a[j] == b[i];
            assert SomeHolds(a, a[j].kind);
            var k :| 0 <= k < |a| && a[k].kind == b[i].kind && a[k].holds;
            assert a[k] in b;
          }
        case Or =>
          var k :| 0 <= k < |a| && a[k].holds;
          assert a[k] in b;
        case And =>
          forall i | 0 <= i < |b|
            ensures b[i].holds
          {
            assert b[i] in a;
          }
        case _ =>
      }
    }
  }
}
