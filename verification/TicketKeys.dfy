/** The rotation of TLS session ticket keys in tlsticketupdate.go. The first key encrypts, all decrypt. */
module TicketKeys {
  type Key = seq<int>

  function Rotated<T>(keys: seq<T>, fresh_: T): seq<T>
    requires |keys| >= 2
  {
    var n := Longer(|keys|);
    [keys[|keys| - 1]] + keys[..n - 2] + [fresh_]
  }

  function Longer(n: nat): nat {
    if n + 1 > 13 then 13 else n + 1
  }

  // Position by position: the last key first, then the others but the oldest beyond 13, then the fresh one.
  lemma RotatedIs<T>(keys: seq<T>, fresh_: T, r: seq<T>)
    requires |keys| >= 2
    ensures r == Rotated(keys, fresh_) <==>
      && |r| == Longer(|keys|) && r[0] == keys[|keys| - 1] && r[|r| - 1] == fresh_
      && forall i :: 0 < i < |r| - 1 ==> r[i] == keys[i - 1]
  {
  }

  // The list after t rotations, by the order in which keys are made: rotation t makes key t + 1.
  function Numbers(t: nat): (ks: seq<nat>)
    ensures |ks| >= 2
  {
    if t == 0 then [0, 1] else Rotated(Numbers(t - 1), t + 1)
  }

  /** After t rotations the list is exactly key t, t - 1 and so on down to t - 11 or 0, and last key t + 1. */
  lemma {:induction false} NumbersAre(t: nat)
    ensures var ks, n := Numbers(t), (if t < 11 then t else 11) + 2;
      && |ks| == n && ks[n - 1] == t + 1
      && forall i :: 0 <= i < n - 1 ==> ks[i] == t - i
  {
    hide Rotated;
    if t > 0 {
      NumbersAre(t - 1);
      RotatedIs(Numbers(t - 1), t + 1, Numbers(t));
    }
  }

  /** The key that encrypts in epoch k can be used for decryption in exactly the epochs k - 1, or 0, to k + 11. */
  lemma KeyLifetime(k: nat, t: nat)
    ensures k in Numbers(t) <==> k - 1 <= t <= k + 11
  {
    NumbersAre(t);
    var ks := Numbers(t);
    if k == t + 1 {
      assert ks[|ks| - 1] == k;
    } else if k <= t <= k + 11 {
      assert ks[t - k] == k;
    }
  }

  /** Epoch t encrypts with key t, which every host could already decrypt with before, unless it is the first. */
  lemma PublishedBeforeUse(t: nat)
    ensures Numbers(t)[0] == t && (t > 0 ==> t in Numbers(t - 1))
  {
  }

  // The list holds the keys made with the numbers of t rotations.
  ghost predicate Holds(keys: seq<Key>, made: seq<Key>, t: nat) {
    |made| == t + 2 && |keys| == |Numbers(t)| &&
    forall i :: 0 <= i < |keys| ==> Numbers(t)[i] < |made| && keys[i] == made[Numbers(t)[i]]
  }

  lemma HoldsRotated(keys: seq<Key>, made: seq<Key>, t: nat, fresh_: Key)
    requires Holds(keys, made, t)
    ensures |keys| >= 2 && Holds(Rotated(keys, fresh_), made + [fresh_], t + 1)
  {
    hide Rotated;
    var ks, ks', r, made' := Numbers(t), Numbers(t + 1), Rotated(keys, fresh_), made + [fresh_];
    RotatedIs(ks, t + 2, ks');
    RotatedIs(keys, fresh_, r);
    forall i | 0 <= i < |r|
      ensures ks'[i] < |made'| && r[i] == made'[ks'[i]]
    {
      if i == 0 {
        assert keys[|keys| - 1] == made[ks[|ks| - 1]];
      } else if i < |r| - 1 {
        assert keys[i - 1] == made[ks[i - 1]];
      }
    }
  }

  // The list is rebuilt in a new array, with Go's copy.
  method Rebuild(keys: array<Key>, fresh_: Key) returns (newKeys: array<Key>)
    requires keys.Length >= 2
    ensures fresh(newKeys) && newKeys[..] == Rotated(keys[..], fresh_)
  {
    hide Rotated;
    var n := keys.Length + 1;
    if n > 13 {
      n := 13;
    }
    newKeys := new Key[n];
    newKeys[0] := keys[keys.Length - 1];
    for i := 0 to n - 2
      invariant newKeys[0] == keys[keys.Length - 1]
      invariant forall j :: 1 <= j <= i ==> newKeys[j] == keys[j - 1]
    {
      newKeys[1 + i] := keys[i];
    }
    newKeys[n - 1] := fresh_;
    RotatedIs(keys[..], fresh_, newKeys[..]);
  }

  class Updater {
    var keys: array<Key>

    // All keys in the order made, and the rotations so far.
    ghost var made: seq<Key>
    ghost var t: nat

    ghost predicate Valid()
      reads this, keys
    {
      Holds(keys[..], made, t)
    }

    constructor (current: Key, next: Key)
      ensures Valid() && made == [current, next] && t == 0 && fresh(keys)
    {
      keys := new Key[] [current, next];
      made, t := [current, next], 0;
    }

    method Rotate(fresh_: Key)
      requires Valid()
      modifies this
      ensures Valid() && made == old(made) + [fresh_] && t == old(t) + 1 && fresh(keys)
      ensures keys[..] == Rotated(old(keys[..]), fresh_)
    {
      hide Holds, Rotated;
      HoldsRotated(keys[..], made, t, fresh_);
      var newKeys := Rebuild(keys, fresh_);
      keys, made, t := newKeys, made + [fresh_], t + 1;
    }
  }
}
