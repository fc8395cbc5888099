/** A fixed number of histories kept side by side, and the bag of everything they record. */
module Histories {

  function Append<T>(logs: seq<seq<T>>, i: nat, x: T): (r: seq<seq<T>>)
    requires i < |logs|
    ensures |r| == |logs|
  {
    logs[i := logs[i] + [x]]
  }

  function Bag<T>(logs: seq<seq<T>>): multiset<T> {
    if logs == [] then multiset{} else multiset(logs[0]) + Bag(logs[1..])
  }

  lemma {:induction false} BagUpdate<T>(logs: seq<seq<T>>, i: nat, s: seq<T>)
    requires i < |logs|
    ensures Bag(logs[i := s]) + multiset(logs[i]) == Bag(logs) + multiset(s)
  {
    var logs' := logs[i := s];
    if i == 0 {
      assert logs'[1..] == logs[1..];
    } else {
      assert logs'[1..] == logs[1..][i - 1 := s];
      BagUpdate(logs[1..], i - 1, s);
      AddFront(multiset(logs[0]), Bag(logs'[1..]), multiset(logs[i]), Bag(logs[1..]), multiset(s));
    }
  }

  lemma AddFront<T>(h: multiset<T>, a: multiset<T>, x: multiset<T>, b: multiset<T>, y: multiset<T>)
    requires a + x == b + y
    ensures (h + a) + x == (h + b) + y
  {
    assert (h + a) + x == h + (a + x);
    assert (h + b) + y == h + (b + y);
  }

  lemma BagAppend<T>(logs: seq<seq<T>>, i: nat, x: T)
    requires i < |logs|
    ensures Bag(Append(logs, i, x)) == Bag(logs) + multiset{x}
  {
    var before, after := logs[i], logs[i] + [x];
    BagUpdate(logs, i, after);
    assert multiset(after) == multiset(before) + multiset{x};
    Cancel(Bag(Append(logs, i, x)), Bag(logs) + multiset{x}, multiset(before));
  }

  lemma Cancel<T>(a: multiset<T>, b: multiset<T>, c: multiset<T>)
    requires a + c == b + c
    ensures a == b
  {
    assert a == (a + c) - c;
    assert b == (b + c) - c;
  }

  lemma BagOfTwo<T>(logs: seq<seq<T>>)
    requires |logs| == 2
    ensures Bag(logs) == multiset(logs[0]) + multiset(logs[1])
  {
    assert Bag(logs[1..]) == multiset(logs[1]) + Bag(logs[1..][1..]);
  }

  lemma BagOfThree<T>(logs: seq<seq<T>>)
    requires |logs| == 3
    ensures Bag(logs) == multiset(logs[0]) + multiset(logs[1]) + multiset(logs[2])
  {
    assert Bag(logs) == multiset(logs[0]) + Bag(logs[1..]);
    BagOfTwo(logs[1..]);
  }

  /** Splitting every history in two splits the bag. */
  lemma {:induction false} BagSplit<T>(whole: seq<seq<T>>, front: seq<seq<T>>, back: seq<seq<T>>)
    requires |whole| == |front| == |back|
    requires forall i :: 0 <= i < |whole| ==> whole[i] == front[i] + back[i]
    ensures Bag(whole) == Bag(front) + Bag(back)
  {
    if whole != [] {
      BagSplit(whole[1..], front[1..], back[1..]);
      assert multiset(whole[0]) == multiset(front[0]) + multiset(back[0]);
      assert Bag(whole) == multiset(whole[0]) + Bag(whole[1..]);
      assert Bag(front) == multiset(front[0]) + Bag(front[1..]);
      assert Bag(back) == multiset(back[0]) + Bag(back[1..]);
    }
  }
}
