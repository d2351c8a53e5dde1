/**
 The members of an object with an ordered index beside them: a multimap from names to positions and,
 for every member, the multimap's iterator to its entry. Both stay in step through every operation,
 so lookup through the index finds what a search through the members finds.
 */
module MembersMap {
  import opened Bytes
  import opened Dom

  // ---------------------------------------------------------------- the order of the index

  /** `memcmp` on the first `n` bytes: negative, zero or positive. */
  function MemCmp(a: seq<byte>, b: seq<byte>, n: nat): int
    requires n <= |a| && n <= |b|
    decreases n
  {
    if n == 0 then 0
    else if MemCmp(a, b, n - 1) != 0 then MemCmp(a, b, n - 1)
    else a[n - 1] as int - b[n - 1] as int
  }

  /** The order of the names. */
  predicate Less(a: seq<byte>, b: seq<byte>) {
    var n := if |a| < |b| then |a| else |b|;
    MemCmp(a, b, n) < 0 || (MemCmp(a, b, n) == 0 && |a| < |b|)
  }

  predicate AgreeUpTo(a: seq<byte>, b: seq<byte>, k: nat) {
    k <= |a| && k <= |b| && forall i :: 0 <= i < k ==> a[i] == b[i]
  }

  /** The first place where two texts differ within their first `n` bytes decides. */
  lemma {:induction false} MemCmpDecides(a: seq<byte>, b: seq<byte>, n: nat) returns (k: nat)
    requires n <= |a| && n <= |b|
    ensures k <= n && AgreeUpTo(a, b, k)
    ensures k == n ==> MemCmp(a, b, n) == MemCmp(b, a, n) == 0
    ensures k < n ==> a[k] != b[k] && MemCmp(a, b, n) == a[k] as int - b[k] as int == -MemCmp(b, a, n)
    decreases n
  {
    if n == 0 {
      k := 0;
    } else {
      k := MemCmpDecides(a, b, n - 1);
      if k == n - 1 && a[k] == b[k] {
        k := n;
      }
    }
  }

  /** Where two names first differ; each is less exactly when it ends there or has the smaller byte there. */
  lemma LessAtFirstDifference(a: seq<byte>, b: seq<byte>) returns (k: nat)
    ensures AgreeUpTo(a, b, k) && (k < |a| && k < |b| ==> a[k] != b[k])
    ensures Less(a, b) <==> k < |b| && (k == |a| || a[k] < b[k])
    ensures Less(b, a) <==> k < |a| && (k == |b| || b[k] < a[k])
  {
    var n := if |a| < |b| then |a| else |b|;
    k := MemCmpDecides(a, b, n);
  }

  /** Names that the order does not tell apart are the same name, so the index compares names as a search does. */
  lemma EquivalentIsEqual(a: seq<byte>, b: seq<byte>)
    ensures !Less(a, b) && !Less(b, a) <==> a == b
    ensures !(Less(a, b) && Less(b, a))
  {
    var k := LessAtFirstDifference(a, b);
  }

  lemma LessIsTransitive(a: seq<byte>, b: seq<byte>, c: seq<byte>)
    requires Less(a, b) && Less(b, c)
    ensures Less(a, c)
  {
    var i := LessAtFirstDifference(a, b);
    var j := LessAtFirstDifference(b, c);
    var k := LessAtFirstDifference(a, c);
  }

  // ---------------------------------------------------------------- the multimap

  /** A name and the position of its member. */
  datatype Entry = Entry(key: seq<byte>, second: nat)

  datatype Found = At(it: nat) | End

  /** The entries by iterator; an iterator stays valid until its own entry is erased. */
  class Multimap {
    var nodes: map<nat, Entry>
    var next: nat

    constructor ()
      ensures nodes == map[] && Valid()
    {
      nodes := map[];
      next := 0;
    }

    predicate Valid()
      reads this
    {
      forall it :: it in nodes ==> it < next
    }

    method Insert(key: seq<byte>, second: nat) returns (it: nat)
      requires Valid()
      modifies this
      ensures Valid() && it !in old(nodes) && nodes == old(nodes)[it := Entry(key, second)]
    {
      it := next;
      nodes := nodes[it := Entry(key, second)];
      next := next + 1;
    }

    method Erase(it: nat)
      requires Valid() && it in nodes
      modifies this
      ensures Valid() && nodes == old(nodes) - {it}
    {
      nodes := nodes - {it};
    }

    method SetSecond(it: nat, second: nat)
      requires Valid() && it in nodes
      modifies this
      ensures Valid() && nodes == old(nodes)[it := Entry(old(nodes)[it].key, second)]
    {
      nodes := nodes[it := Entry(nodes[it].key, second)];
    }

    /** Any entry with an equivalent key: among several the one found is not specified. */
    method Find(key: seq<byte>) returns (r: Found)
      ensures match r
              case At(it) => it in nodes && nodes[it].key == key
              case End => forall it :: it in nodes ==> nodes[it].key != key
    {
      var rest := nodes.Keys;
      while rest != {}
        invariant rest <= nodes.Keys
        invariant forall it :: it in nodes && it !in rest ==> nodes[it].key != key
        decreases |rest|
      {
        var it :| it in rest;
        var k := nodes[it].key;
        EquivalentIsEqual(k, key);
        if !Less(k, key) && !Less(key, k) {
          return At(it);
        }
        rest := rest - {it};
      }
      r := End;
    }
  }

  // ---------------------------------------------------------------- the index and the members

  /**
   The entries are exactly those of the members at [0, a) and [b, n): `mit[i]` is the entry of member
   `i`, holds its name and its position, and there is no other entry.
   */
  ghost predicate Indexed(nodes: map<nat, Entry>, members: seq<Member>, mit: seq<nat>, a: nat, b: nat, n: nat) {
    && a <= b <= n <= |members| == |mit|
    && |nodes| == a + (n - b)
    && (forall i :: 0 <= i < a || b <= i < n ==> mit[i] in nodes && nodes[mit[i]] == Entry(members[i].name, i))
    && (forall it :: it in nodes ==>
          var i := nodes[it].second; (i < a || b <= i < n) && mit[i] == it)
  }

  lemma IndexedAt(nodes: map<nat, Entry>, members: seq<Member>, mit: seq<nat>, n: nat, a: nat)
    requires a <= n
    ensures Indexed(nodes, members, mit, n, n, n) <==> Indexed(nodes, members, mit, a, a, n)
  {
  }

  /** Dropping the entry of the first member after the gap. */
  lemma EntryDropped(nodes: map<nat, Entry>, members: seq<Member>, mit: seq<nat>, a: nat, b: nat, n: nat)
    requires Indexed(nodes, members, mit, a, b, n) && b < n
    ensures Indexed(nodes - {mit[b]}, members, mit, a, b + 1, n)
  {
    var rest := nodes - {mit[b]};
    assert rest.Keys == nodes.Keys - {mit[b]};
    assert |rest.Keys| == |rest| && |nodes.Keys| == |nodes|;
  }

  /** Moving a member and its entry from the end of the gap to its beginning. */
  lemma EntryMoved(nodes: map<nat, Entry>, members: seq<Member>, mit: seq<nat>, a: nat, b: nat, n: nat)
    requires Indexed(nodes, members, mit, a, b, n) && a < b < n
    ensures Indexed(nodes[mit[b] := Entry(nodes[mit[b]].key, a)], members[a := members[b]], mit[a := mit[b]], a + 1,
                    b + 1, n)
  {
    var moved := nodes[mit[b] := Entry(nodes[mit[b]].key, a)];
    assert moved.Keys == nodes.Keys;
    assert |moved.Keys| == |moved| && |nodes.Keys| == |nodes|;
  }

  /** Moving the last member into a gap of one. */
  lemma LastMoved(nodes: map<nat, Entry>, members: seq<Member>, mit: seq<nat>, a: nat, n: nat)
    requires Indexed(nodes, members, mit, a, a + 1, n) && a + 1 < n
    ensures var l := n - 1;
            Indexed(nodes[mit[l] := Entry(nodes[mit[l]].key, a)], members[a := members[l]], mit[a := mit[l]], l, l, l)
  {
    var moved := nodes[mit[n - 1] := Entry(nodes[mit[n - 1]].key, a)];
    assert moved.Keys == nodes.Keys;
    assert |moved.Keys| == |moved| && |nodes.Keys| == |nodes|;
  }

  lemma EntryAdded(nodes: map<nat, Entry>, members: seq<Member>, mit: seq<nat>, n: nat, m: Member, it: nat)
    requires Indexed(nodes, members, mit, n, n, n) && n < |members| && it !in nodes
    ensures Indexed(nodes[it := Entry(m.name, n)], members[n := m], mit[n := it], n + 1, n + 1, n + 1)
  {
  }

  // ---------------------------------------------------------------- searching

  /** The first position from `i` on whose member has the name; the number of members when there is none. */
  function FirstNamed(ms: seq<Member>, name: seq<byte>, i: nat): (k: nat)
    requires i <= |ms|
    ensures i <= k <= |ms| && (k < |ms| ==> ms[k].name == name) && forall j :: i <= j < k ==> ms[j].name != name
    decreases |ms| - i
  {
    if i == |ms| || ms[i].name == name then i else FirstNamed(ms, name, i + 1)
  }

  ghost predicate NamesDistinct(ms: seq<Member>) {
    forall i, j :: 0 <= i < j < |ms| ==> ms[i].name != ms[j].name
  }

  function SwapRemoved(ms: seq<Member>, k: nat): seq<Member>
    requires k < |ms|
  {
    if k == |ms| - 1 then ms[..k] else ms[..k] + [ms[|ms| - 1]] + ms[k + 1..|ms| - 1]
  }

  function RangeErased(ms: seq<Member>, first: nat, last: nat): seq<Member>
    requires first <= last <= |ms|
  {
    ms[..first] + ms[last..]
  }

  // ---------------------------------------------------------------- the object

  const DEFAULT_OBJECT_CAPACITY: nat := 16

  class ObjectData {
    var members: array<Member>
    var mit: array<nat>
    var index: Multimap
    var size: nat

    ghost predicate Valid()
      reads this, members, mit, index
    {
      && members as object != mit as object && size <= members.Length == mit.Length
      && index.Valid() && Indexed(index.nodes, members[..], mit[..], size, size, size)
    }

    function Contents(): seq<Member>
      requires size <= members.Length
      reads this, members
    {
      members[..size]
    }

    constructor (ms: seq<Member>)
      ensures Valid() && Contents() == ms && members.Length == |ms|
      ensures fresh(members) && fresh(mit) && fresh(index)
    {
      members := new Member[|ms|];
      mit := new nat[|ms|];
      index := new Multimap();
      size := 0;
      new;
      assert Contents() == [];
      AppendAll(ms);
    }

    method AppendAll(ms: seq<Member>)
      requires Valid() && size + |ms| <= members.Length
      modifies this`size, members, mit, index
      ensures Valid() && Contents() == old(Contents()) + ms
    {
      hide Valid;
      var i := 0;
      while i < |ms|
        invariant i <= |ms| && Valid() && size + (|ms| - i) <= members.Length
        invariant Contents() == old(Contents()) + ms[..i]
      {
        Append(ms[i]);
        assert ms[..i + 1] == ms[..i] + [ms[i]];
        i := i + 1;
      }
      assert ms[..i] == ms;
    }

    /** A member and its entry in room that is there. */
    method Append(m: Member)
      requires Valid() && size < members.Length
      modifies this`size, members, mit, index
      ensures Valid() && size == old(size) + 1 && Contents() == old(Contents()) + [m]
    {
      hide Indexed;
      ghost var ms, its, nodes := members[..], mit[..], index.nodes;
      members[size] := m;
      var it := index.Insert(m.name, size);
      mit[size] := it;
      EntryAdded(nodes, ms, its, size, m, it);
      assert members[..] == ms[size := m] && mit[..] == its[size := it];
      size := size + 1;
    }

    /** Larger buffers; as many members and iterators are moved as the index has entries. */
    method Reallocate(newCapacity: nat)
      requires Valid() && members.Length <= newCapacity
      modifies this`members, this`mit
      ensures Valid() && Contents() == old(Contents()) && members.Length == newCapacity
      ensures fresh(members) && fresh(mit)
    {
      var count := |index.nodes|;
      assert count == size;
      hide Indexed;
      ghost var ms, its := members[..], mit[..];
      members := CopiedMembers(members, count, newCapacity);
      mit := MovedIterators(mit, count, newCapacity);
      SameFront(index.nodes, ms, its, members[..], mit[..], size);
    }

    static method CopiedMembers(src: array<Member>, count: nat, capacity: nat) returns (dst: array<Member>)
      requires count <= src.Length && count <= capacity
      ensures fresh(dst) && dst.Length == capacity && dst[..count] == src[..count]
    {
      dst := new Member[capacity];
      forall i | 0 <= i < count {
        dst[i] := src[i];
      }
    }

    static method MovedIterators(src: array<nat>, n: nat, capacity: nat) returns (dst: array<nat>)
      requires n <= src.Length && n <= capacity
      ensures fresh(dst) && dst.Length == capacity && dst[..n] == src[..n]
    {
      dst := new nat[capacity];
      var count := n;
      while count > 0
        invariant 0 <= count <= n
        invariant forall i :: count <= i < n ==> dst[i] == src[i]
      {
        count := count - 1;
        dst[count] := src[count];
      }
    }

    method Reserve(newCapacity: nat)
      requires Valid()
      modifies this`members, this`mit
      ensures Valid() && Contents() == old(Contents())
      ensures members.Length == if newCapacity > old(members.Length) then newCapacity else old(members.Length)
      ensures (members == old(members) && mit == old(mit)) || (fresh(members) && fresh(mit))
    {
      if newCapacity > members.Length {
        Reallocate(newCapacity);
      }
    }

    method AddMember(name: seq<byte>, value: Value)
      requires Valid()
      modifies this, members, mit, index
      ensures Valid() && index == old(index) && Contents() == old(Contents()) + [Member(name, value)]
      ensures (members == old(members) && mit == old(mit)) || (fresh(members) && fresh(mit))
    {
      if size >= members.Length {
        Reserve(if members.Length > 0 then members.Length + (members.Length + 1) / 2 else DEFAULT_OBJECT_CAPACITY);
      }
      Append(Member(name, value));
    }

    /** Lookup through the index. */
    method FindMember(name: seq<byte>) returns (k: nat)
      requires Valid()
      ensures k <= size
      ensures k < size ==> Contents()[k].name == name
      ensures k == size ==> forall i :: 0 <= i < size ==> Contents()[i].name != name
      ensures NamesDistinct(Contents()) ==> k == FirstNamed(Contents(), name, 0)
    {
      var r := index.Find(name);
      match r {
        case At(it) =>
          k := index.nodes[it].second;
        case End =>
          k := size;
          forall i | 0 <= i < size
            ensures members[i].name != name
          {
            assert index.nodes[mit[i]].key == members[i].name;
          }
      }
      if NamesDistinct(Contents()) {
        UniquelyNamed(Contents(), name, k);
      }
    }

    /** Lookup without the index. */
    method LinearFindMember(name: seq<byte>) returns (k: nat)
      requires Valid()
      ensures k == FirstNamed(Contents(), name, 0)
    {
      k := 0;
      while k < size
        invariant k <= size && FirstNamed(Contents(), name, k) == FirstNamed(Contents(), name, 0)
      {
        if members[k].name == name {
          return;
        }
        k := k + 1;
      }
    }

    /** Takes a member out and puts the last one in its place. */
    method RemoveAt(k: nat)
      requires Valid() && k < size
      modifies this`size, members, mit, index
      ensures Valid() && Contents() == SwapRemoved(old(Contents()), k)
    {
      hide Indexed;
      IndexedAt(index.nodes, members[..], mit[..], size, k);
      GapEntry(index.nodes, members[..], mit[..], k, k, size, k);
      EntryDropped(index.nodes, members[..], mit[..], k, k, size);
      index.Erase(mit[k]);
      if size > 1 && k != size - 1 {
        FillGap(k);
        assert members[..size - 1] == SwapRemoved(old(Contents()), k);
      } else {
        IndexedAtEnd(index.nodes, members[..], mit[..], k);
      }
      size := size - 1;
    }

    method FillGap(k: nat)
      requires index.Valid() && size <= members.Length == mit.Length && members as object != mit as object
      requires k + 1 < size && Indexed(index.nodes, members[..], mit[..], k, k + 1, size)
      modifies members, mit, index
      ensures index.Valid() && Indexed(index.nodes, members[..], mit[..], size - 1, size - 1, size - 1)
      ensures members[..] == old(members[..])[k := old(members[size - 1])]
    {
      hide Indexed;
      ghost var ms, its, nodes := members[..], mit[..], index.nodes;
      var last := size - 1;
      GapEntry(nodes, ms, its, k, k + 1, size, last);
      LastMoved(nodes, ms, its, k, size);
      mit[k] := mit[last];
      index.SetSecond(mit[k], k);
      members[k] := members[last];
      assert mit[..] == its[k := its[last]];
    }

    method RemoveMember(name: seq<byte>) returns (found: bool)
      requires Valid()
      modifies this`size, members, mit, index
      ensures Valid()
      ensures found <==> exists i :: 0 <= i < |old(Contents())| && old(Contents())[i].name == name
      ensures !found ==> Contents() == old(Contents())
      ensures found ==> exists k :: 0 <= k < |old(Contents())| && old(Contents())[k].name == name
                                    && Contents() == SwapRemoved(old(Contents()), k)
    {
      hide Indexed, RangeErased, SwapRemoved, NamesDistinct, FirstNamed;
      var k := FindMember(name);
      found := k != size;
      if found {
        assert Contents()[k].name == name;
        RemoveAt(k);
      }
    }

    /** Takes a range of members out and moves the rest down, in order. */
    method EraseMembers(first: nat, last: nat)
      requires Valid() && first <= last <= size
      modifies this`size, members, mit, index
      ensures Valid() && Contents() == RangeErased(old(Contents()), first, last)
    {
      hide Indexed;
      ghost var ms, n := members[..], size;
      IndexedAt(index.nodes, members[..], mit[..], size, first);
      DropEntries(first, last, first);
      if first != last {
        MoveDown(first, last, ms);
      } else {
        IndexedAt(index.nodes, members[..], mit[..], size, first);
      }
      assert ms[..n] == old(Contents());
      assert ms[last..n] == old(Contents())[last..];
      size := size - (last - first);
      IndexedGapAtEnd(index.nodes, members[..], mit[..], size, n);
    }

    /** The entries of the members in a range go. */
    method DropEntries(first: nat, last: nat, ghost a: nat)
      requires index.Valid() && size <= members.Length == mit.Length
      requires a <= first <= last <= size && Indexed(index.nodes, members[..], mit[..], a, first, size)
      modifies index
      ensures index.Valid() && Indexed(index.nodes, members[..], mit[..], a, last, size)
    {
      hide Indexed;
      var itr := first;
      while itr != last
        invariant first <= itr <= last && index.Valid()
        invariant Indexed(index.nodes, members[..], mit[..], a, itr, size)
      {
        GapEntry(index.nodes, members[..], mit[..], a, itr, size, itr);
        EntryDropped(index.nodes, members[..], mit[..], a, itr, size);
        index.Erase(mit[itr]);
        itr := itr + 1;
      }
    }

    method MoveDown(first: nat, last: nat, ghost ms: seq<Member>)
      requires index.Valid() && size <= members.Length == mit.Length && members as object != mit as object
      requires first < last <= size && members[..] == ms &&
               Indexed(index.nodes, members[..], mit[..], first, last, size)
      modifies members, mit, index
      ensures index.Valid() && Indexed(index.nodes, members[..], mit[..], size - (last - first), size, size)
      ensures members[..size - (last - first)] == ms[..first] + ms[last..size]
    {
      hide Multimap.Valid;
      hide Indexed;
      var itr, next := first, last;
      while next != size
        invariant first <= itr < next <= size && next - itr == last - first && index.Valid()
        invariant Indexed(index.nodes, members[..], mit[..], itr, next, size)
        invariant members[..itr] == ms[..first] + ms[last..next]
        invariant forall i :: next <= i < size ==> members[i] == ms[i]
      {
        ghost var now, its, nodes := members[..], mit[..], index.nodes;
        GapEntry(nodes, now, its, itr, next, size, next);
        EntryMoved(nodes, now, its, itr, next, size);
        members[itr] := members[next];
        mit[itr] := mit[next];
        index.SetSecond(mit[itr], itr);
        assert members[..] == now[itr := now[next]] && mit[..] == its[itr := its[next]];
        assert members[..itr + 1] == members[..itr] + [ms[next]];
        assert members[..itr] == now[..itr];
        assert ms[last..next + 1] == ms[last..next] + [ms[next]];
        itr, next := itr + 1, next + 1;
      }
    }

    method EraseMember(name: seq<byte>) returns (found: bool)
      requires Valid()
      modifies this`size, members, mit, index
      ensures Valid()
      ensures found <==> exists i :: 0 <= i < |old(Contents())| && old(Contents())[i].name == name
      ensures !found ==> Contents() == old(Contents())
      ensures found ==> exists k :: 0 <= k < |old(Contents())| && old(Contents())[k].name == name
                                    && Contents() == RangeErased(old(Contents()), k, k + 1)
    {
      hide Indexed, RangeErased, SwapRemoved, NamesDistinct, FirstNamed;
      var k := FindMember(name);
      found := k != size;
      if found {
        assert Contents()[k].name == name;
        EraseMembers(k, k + 1);
      }
    }

    method Clear()
      requires Valid()
      modifies this`size, index
      ensures Valid() && Contents() == []
    {
      hide Indexed;
      IndexedAt(index.nodes, members[..], mit[..], size, 0);
      DropEntries(0, size, 0);
      IndexedGapAtEnd(index.nodes, members[..], mit[..], 0, size);
      size := 0;
    }
  }

  lemma GapEntry(nodes: map<nat, Entry>, members: seq<Member>, mit: seq<nat>, a: nat, b: nat, n: nat, i: nat)
    requires Indexed(nodes, members, mit, a, b, n) && b <= i < n
    ensures mit[i] in nodes
  {
  }

  lemma IndexedAtEnd(nodes: map<nat, Entry>, members: seq<Member>, mit: seq<nat>, k: nat)
    requires Indexed(nodes, members, mit, k, k + 1, k + 1)
    ensures Indexed(nodes, members, mit, k, k, k)
  {
  }

  lemma IndexedGapAtEnd(nodes: map<nat, Entry>, members: seq<Member>, mit: seq<nat>, a: nat, n: nat)
    requires Indexed(nodes, members, mit, a, n, n)
    ensures Indexed(nodes, members, mit, a, a, a)
  {
  }

  lemma SameFront(nodes: map<nat, Entry>, members: seq<Member>, mit: seq<nat>, members1: seq<Member>, mit1: seq<nat>,
                  n: nat)
    requires Indexed(nodes, members, mit, n, n, n) && n <= |members1| == |mit1|
    requires members1[..n] == members[..n] && mit1[..n] == mit[..n]
    ensures Indexed(nodes, members1, mit1, n, n, n)
  {
    assert forall i :: 0 <= i < n ==> members1[..n][i] == members[i] && mit1[..n][i] == mit[i];
  }

  /** With distinct names there is only one member to find. */
  lemma UniquelyNamed(ms: seq<Member>, name: seq<byte>, k: nat)
    requires NamesDistinct(ms) && k <= |ms|
    requires if k < |ms| then ms[k].name == name else forall i :: 0 <= i < |ms| ==> ms[i].name != name
    ensures k == FirstNamed(ms, name, 0)
  {
  }
}
