/** The three-level keys that contacts, ranges and timeline events are ordered by. */
module Keys {
  datatype Key = Key(first: int, second: int, third: int)

  /** The comparison all three ordering functions make, level by level. */
  function Compare(k: Key, arg: Key): int {
    if k.first < arg.first then -1
    else if k.first > arg.first then 1
    else if k.second < arg.second then -1
    else if k.second > arg.second then 1
    else if k.third < arg.third then -1
    else if k.third > arg.third then 1
    else 0
  }

  predicate Below(k: Key, l: Key) {
    Compare(k, l) < 0
  }

  lemma CompareIsTotalOrder(k: Key, l: Key, m: Key)
    ensures Compare(k, l) == 0 <==> k == l
    ensures Compare(k, l) < 0 <==> Compare(l, k) > 0
    ensures Below(k, l) && Below(l, m) ==> Below(k, m)
  {
  }

  ghost predicate Sorted(s: seq<Key>) {
    forall i, j :: 0 <= i < j < |s| ==> Below(s[i], s[j])
  }

  /** The position a key has, or would be inserted at. */
  function Position(s: seq<Key>, k: Key): (n: nat)
    ensures n <= |s|
    ensures forall i :: 0 <= i < n ==> Below(s[i], k)
    ensures n < |s| ==> !Below(s[n], k)
  {
    if s == [] || !Below(s[0], k) then 0 else 1 + Position(s[1..], k)
  }

  /** Where a scan from a key starts: a search that finds the key leaves no successor. */
  function ScanStart(s: seq<Key>, k: Key): (n: nat)
    ensures n <= |s|
  {
    if k in s then |s| else Position(s, k)
  }

  /** In a sorted sequence everything from a key's position on is at or above it. */
  lemma AfterPosition(s: seq<Key>, k: Key)
    requires Sorted(s)
    ensures forall i :: Position(s, k) <= i < |s| ==> Compare(s[i], k) >= 0
    ensures forall i :: Position(s, k) < i < |s| ==> Below(k, s[i])
    ensures k in s <==> Position(s, k) < |s| && s[Position(s, k)] == k
  {
    var n := Position(s, k);
    forall i | n < i < |s|
      ensures Below(k, s[i])
    {
      CompareIsTotalOrder(s[n], k, k);
      CompareIsTotalOrder(k, s[n], s[i]);
    }
    if k in s {
      var i :| 0 <= i < |s| && s[i] == k;
    }
  }

  lemma InsertSorted(s: seq<Key>, k: Key)
    requires Sorted(s) && k !in s
    ensures var n := Position(s, k); Sorted(s[..n] + [k] + s[n..])
  {
    var n := Position(s, k);
    var s' := s[..n] + [k] + s[n..];
    AfterPosition(s, k);
    assert forall i :: n <= i < |s| ==> Below(k, s[i]) by {
      forall i | n <= i < |s|
        ensures Below(k, s[i])
      {
        CompareIsTotalOrder(s[i], k, k);
      }
    }
    forall i, j | 0 <= i < j < |s'|
      ensures Below(s'[i], s'[j])
    {
      assert s'[i] == if i < n then s[i] else if i == n then k else s[i - 1];
      assert s'[j] == if j < n then s[j] else if j == n then k else s[j - 1];
    }
  }

  /** Sorted sequences with the same elements are the same sequence. */
  lemma {:induction false} SortedUnique(s: seq<Key>, t: seq<Key>)
    requires Sorted(s) && Sorted(t) && forall k :: k in s <==> k in t
    ensures s == t
  {
    assert t != [] ==> t[0] in t;
    if s != [] {
      assert s[0] in t && t != [] && t[0] in s;
      var i :| 0 <= i < |t| && t[i] == s[0];
      var j :| 0 <= j < |s| && s[j] == t[0];
      CompareIsTotalOrder(s[0], t[0], s[0]);
      assert s[0] == t[0];
      forall k
        ensures k in s[1..] <==> k in t[1..]
      {
        CompareIsTotalOrder(s[0], k, k);
        if k in s[1..] {
          var a :| 1 <= a < |s| && s[a] == k;
          assert k in t;
        }
        if k in t[1..] {
          var a :| 1 <= a < |t| && t[a] == k;
          assert k in s;
        }
      }
      SortedUnique(s[1..], t[1..]);
    }
  }
}
