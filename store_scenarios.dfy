/** Client code that drives a `Store` through the scenarios of the
    repository's tests, using only the methods' contracts. */
module StoreScenarios {
  import opened Entities
  import opened TypeKey
  import opened StoreSpec
  import opened StoreInvariants
  import opened EcStore

  /** Adding three entities of one type with distinct ids to an empty store
      fills one bucket in argument order and indexes all three ids. */
  lemma AddThree(e1: Entity, e2: Entity, e3: Entity)
    requires KeyOf(e1) == KeyOf(e2) == KeyOf(e3)
    ensures AfterAdd(EMPTY, [PointerToStruct(e1), PointerToStruct(e2), PointerToStruct(e3)])
            == (State(map[KeyOf(e1) := [e1, e2, e3]], map[e1.id := e1, e2.id := e2, e3.id := e3]), Success)
  {
    var k := KeyOf(e1);
    var vs := [PointerToStruct(e1), PointerToStruct(e2), PointerToStruct(e3)];
    assert [] + [e1] == [e1] && [e1] + [e2] == [e1, e2] && [e1, e2] + [e3] == [e1, e2, e3];
    var a1 := Append(EMPTY, k, e1);
    var a2 := Append(a1, k, e2);
    var s1 := Append(a2, k, e3);
    assert s1 == State(map[k := [e1, e2, e3]], map[e1.id := e1, e2.id := e2, e3.id := e3]);
    assert vs[1..] == [PointerToStruct(e2), PointerToStruct(e3)];
    assert vs[1..][1..] == [PointerToStruct(e3)];
    assert [PointerToStruct(e3)][1..] == [];
    assert AddEach(a2, [PointerToStruct(e3)]) == AddEach(s1, []);
    assert AddEach(a1, vs[1..]) == AddEach(a2, [PointerToStruct(e3)]);
  }

  /** Removing the first and then the third of three bucketed entities:
      the third first moves into the first slot, then is removed in turn. */
  lemma RemoveTwo(e1: Entity, e2: Entity, e3: Entity)
    requires e1 != e2 && e2 != e3 && e1 != e3
    requires e1.id != e2.id && e2.id != e3.id && e1.id != e3.id
    requires KeyOf(e1) == KeyOf(e2) == KeyOf(e3)
    ensures AfterRemove(State(map[KeyOf(e1) := [e1, e2, e3]], map[e1.id := e1, e2.id := e2, e3.id := e3]),
                        [PointerToStruct(e1), PointerToStruct(e3)])
            == (State(map[KeyOf(e1) := [e2]], map[e2.id := e2]), Success)
  {
    var k := KeyOf(e1);
    var s1 := State(map[k := [e1, e2, e3]], map[e1.id := e1, e2.id := e2, e3.id := e3]);
    var rs := [PointerToStruct(e1), PointerToStruct(e3)];
    assert IndexOf([e1, e2, e3], e1) == Some(0);
    assert SwapRemove([e1, e2, e3], 0) == [e3, e2];
    var d1 := Detach(s1, k, e1);
    assert d1 == State(map[k := [e3, e2]], map[e2.id := e2, e3.id := e3]);
    assert IndexOf([e3, e2], e3) == Some(0);
    assert SwapRemove([e3, e2], 0) == [e2];
    var d2 := Detach(d1, k, e3);
    assert d2 == State(map[k := [e2]], map[e2.id := e2]);
    assert rs[1..] == [PointerToStruct(e3)];
    assert [PointerToStruct(e3)][1..] == [];
    assert RemoveEach(d1, [PointerToStruct(e3)]) == RemoveEach(d2, []);
  }

  /** Three entities of one type are added and two of them removed: one is
      left in total and in its type, the removed id resolves to nothing and
      the kept one still resolves (test/ecstore_test.go:26-44). */
  method RemoveAndCount() returns (added: nat, total: nat, ofType: nat, gone: Entity?, kept: Entity?)
    ensures added == 3 && total == 1 && ofType == 1
    ensures gone == null && kept != null && kept.id == "e_keep_2"
  {
    var simple := StructType("ecstore_test", "SimpleEntity");
    var store := new Store();
    var e1 := new Entity("e_remove_1", simple);
    var e2 := new Entity("e_keep_2", simple);
    var e3 := new Entity("e_remove_3", simple);
    AddThree(e1, e2, e3);
    RemoveTwo(e1, e2, e3);
    var err := store.Add([PointerToStruct(e1), PointerToStruct(e2), PointerToStruct(e3)]);
    added := store.CountTotal();
    assert |map[e1.id := e1, e2.id := e2, e3.id := e3].Keys| == 3;
    err := store.Remove([PointerToStruct(e1), PointerToStruct(e3)]);
    total := store.CountTotal();
    var sample := new Entity("", simple);
    ofType := store.CountType(PointerToStruct(sample));
    gone := store.GetById("e_remove_1");
    kept := store.GetById("e_keep_2");
  }
}
