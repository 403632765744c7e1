/** The reorderer: moves the first `__debug_info` entry of the section list to its end. */
module Reorder {
  import opened Bytes
  import opened Errors
  import opened Scanner

  /** "__debug_info" */
  const DEBUG_INFO_NAME: seq<byte> := [0x5f, 0x5f, 0x64, 0x65, 0x62, 0x75, 0x67, 0x5f, 0x69, 0x6e, 0x66, 0x6f]

  /** The index of the first entry called `name`, if there is one. */
  function FirstNamed(list: seq<DwarfSection>, name: seq<byte>): (r: Option<nat>)
    ensures r.Some? ==> r.value < |list| && list[r.value].name == name
    ensures r.Some? ==> forall k :: 0 <= k < r.value ==> list[k].name != name
    ensures r.None? ==> forall k :: 0 <= k < |list| ==> list[k].name != name
  {
    if |list| == 0 then None
    else if list[0].name == name then Some(0)
    else
      match FirstNamed(list[1..], name)
      case None => None
      case Some(i) => Some(i + 1)
  }

  /** `erase(begin() + i)` followed by `push_back` of the erased entry. */
  function MoveToEnd(list: seq<DwarfSection>, i: nat): seq<DwarfSection>
    requires i < |list|
  {
    list[..i] + list[i + 1..] + [list[i]]
  }

  /** The reorder step of the program: the first `__debug_info` entry is moved to the end;
      if it is the last entry already the program stops; a list without one is kept. */
  function Reordered(list: seq<DwarfSection>): Result<seq<DwarfSection>>
  {
    match FirstNamed(list, DEBUG_INFO_NAME)
    case None => Ok(list)
    case Some(i) =>
      if i == |list| - 1 then Err(DebugInfoAlreadyLast) else Ok(MoveToEnd(list, i))
  }

  /** The reorder loop: searches the list by index, and on the first `__debug_info` erases it,
      pushes it back and breaks. */
  method Reorder(list: seq<DwarfSection>) returns (r: Result<seq<DwarfSection>>)
    ensures r == Reordered(list)
  {
    var sections := list;
    var i := 0;
    while i < |sections|
      invariant 0 <= i <= |sections|
      invariant sections == list
      invariant forall k :: 0 <= k < i ==> list[k].name != DEBUG_INFO_NAME
    {
      var section := sections[i];
      if section.name == DEBUG_INFO_NAME {
        if i == |sections| - 1 {
          return Err(DebugInfoAlreadyLast);
        }
        sections := sections[..i] + sections[i + 1..];
        sections := sections + [section];
        break;
      }
      i := i + 1;
    }
    return Ok(sections);
  }

  /** The entries not called `name`, in list order. */
  function Without(list: seq<DwarfSection>, name: seq<byte>): seq<DwarfSection>
  {
    if |list| == 0 then []
    else if list[0].name == name then Without(list[1..], name)
    else [list[0]] + Without(list[1..], name)
  }

  /** No two entries share the name `name`. */
  predicate AtMostOneNamed(list: seq<DwarfSection>, name: seq<byte>)
  {
    forall j, k :: 0 <= j < k < |list| && list[j].name == name ==> list[k].name != name
  }

  /** A successful reorder only rearranges the list. */
  lemma ReorderedIsPermutation(list: seq<DwarfSection>)
    requires Reordered(list).Ok?
    ensures multiset(Reordered(list).value) == multiset(list)
  {
    match FirstNamed(list, DEBUG_INFO_NAME)
    case None =>
    case Some(i) =>
      assert list == list[..i] + [list[i]] + list[i + 1..];
  }

  /** Every entry of a successfully reordered list is an entry of the list. */
  lemma ReorderedEntriesFrom(list: seq<DwarfSection>)
    requires Reordered(list).Ok?
    ensures forall k :: 0 <= k < |Reordered(list).value| ==> Reordered(list).value[k] in list
  {
    ReorderedIsPermutation(list);
    var r := Reordered(list).value;
    forall k | 0 <= k < |r|
      ensures r[k] in list
    {
      assert r[k] in multiset(r);
    }
  }

  /** A successful reorder of a list holding `__debug_info` ends with that entry, and keeps
      every other entry in its relative order. */
  lemma {:induction false} ReorderedIsStable(list: seq<DwarfSection>)
    requires Reordered(list).Ok?
    requires AtMostOneNamed(list, DEBUG_INFO_NAME)
    requires FirstNamed(list, DEBUG_INFO_NAME).Some?
    ensures var r := Reordered(list).value;
      r == Without(list, DEBUG_INFO_NAME) + [list[FirstNamed(list, DEBUG_INFO_NAME).value]]
  {
    var i := FirstNamed(list, DEBUG_INFO_NAME).value;
    WithoutSplits(list[..i], list[i + 1..], DEBUG_INFO_NAME);
    WithoutSplits([list[i]], list[i + 1..], DEBUG_INFO_NAME);
    assert list == list[..i] + ([list[i]] + list[i + 1..]);
    WithoutSplits(list[..i], [list[i]] + list[i + 1..], DEBUG_INFO_NAME);
    WithoutNone(list[..i], DEBUG_INFO_NAME);
    WithoutNone(list[i + 1..], DEBUG_INFO_NAME);
    assert Without([list[i]], DEBUG_INFO_NAME) == [];
  }

  lemma {:induction false} WithoutSplits(a: seq<DwarfSection>, b: seq<DwarfSection>, name: seq<byte>)
    ensures Without(a + b, name) == Without(a, name) + Without(b, name)
  {
    if |a| > 0 {
      assert (a + b)[1..] == a[1..] + b;
      WithoutSplits(a[1..], b, name);
    } else {
      assert a + b == b;
    }
  }

  lemma {:induction false} WithoutNone(a: seq<DwarfSection>, name: seq<byte>)
    requires forall k :: 0 <= k < |a| ==> a[k].name != name
    ensures Without(a, name) == a
  {
    if |a| > 0 {
      WithoutNone(a[1..], name);
    }
  }

  /** The program stops in the reorder step exactly when the first `__debug_info` entry is
      the last entry. */
  lemma ReorderedFails(list: seq<DwarfSection>)
    ensures Reordered(list).Err? <==>
      |list| > 0 && list[|list| - 1].name == DEBUG_INFO_NAME
      && forall k :: 0 <= k < |list| - 1 ==> list[k].name != DEBUG_INFO_NAME
    ensures Reordered(list).Err? ==> Reordered(list).error == DebugInfoAlreadyLast
  {
    if |list| > 0 && list[|list| - 1].name == DEBUG_INFO_NAME
       && forall k :: 0 <= k < |list| - 1 ==> list[k].name != DEBUG_INFO_NAME {
      assert FirstNamed(list, DEBUG_INFO_NAME) == Some(|list| - 1);
    }
  }

  /** Reordering the reordered list fails: its only `__debug_info` entry is now the last. */
  lemma ReorderTwice(list: seq<DwarfSection>)
    requires AtMostOneNamed(list, DEBUG_INFO_NAME)
    requires FirstNamed(list, DEBUG_INFO_NAME).Some?
    requires Reordered(list).Ok?
    ensures Reordered(Reordered(list).value) == Err(DebugInfoAlreadyLast)
  {
    ReorderedPutsDebugInfoLast(list);
    ReorderedFails(Reordered(list).value);
  }

  /** After a successful reorder of a list with one `__debug_info` entry, that entry is the
      last and no other entry has its name. */
  lemma ReorderedPutsDebugInfoLast(list: seq<DwarfSection>)
    requires AtMostOneNamed(list, DEBUG_INFO_NAME)
    requires FirstNamed(list, DEBUG_INFO_NAME).Some?
    requires Reordered(list).Ok?
    ensures var r := Reordered(list).value;
      |r| == |list| && r[|r| - 1].name == DEBUG_INFO_NAME
      && forall k :: 0 <= k < |r| - 1 ==> r[k].name != DEBUG_INFO_NAME
  {
    var i := FirstNamed(list, DEBUG_INFO_NAME).value;
    var r := Reordered(list).value;
    forall k | 0 <= k < |r| - 1
      ensures r[k].name != DEBUG_INFO_NAME
    {
      if k < i {
      } else {
        assert r[k] == list[k + 1];
      }
    }
  }
}
