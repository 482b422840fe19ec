/** Entity ids, and the name index that maps target names to them. */
module Ids {

  /** Ids are 32-bit; the largest value means "none". */
  type Id = i: nat | i < 0x1_0000_0000

  const INVALID: Id := 0xFFFF_FFFF

  predicate IsValid(id: Id) {
    id != INVALID
  }

  /** The truncating cast by which an array position becomes an id. */
  function ToId(position: nat): Id {
    position % 0x1_0000_0000
  }

  datatype Option<+T> = None | Some(value: T)

  /** The ids that stand for something, as positions. */
  function ValidIds(ids: seq<Id>): (positions: seq<nat>) {
    if ids == [] then []
    else (if IsValid(ids[0]) then [ids[0] as nat] else []) + ValidIds(ids[1..])
  }

  lemma {:induction false} InValidIds(ids: seq<Id>, v: nat)
    ensures v in ValidIds(ids) <==> v != INVALID && exists k :: 0 <= k < |ids| && ids[k] == v
  {
    if ids != [] {
      InValidIds(ids[1..], v);
      if k :| 0 <= k < |ids| && ids[k] == v {
        if k > 0 { assert ids[1..][k - 1] == v; }
      }
      if k :| 0 <= k < |ids[1..]| && ids[1..][k] == v {
        assert ids[k + 1] == v;
      }
    }
  }

  datatype NameIndexEntry = NameIndexEntry(name: string, id: Id)

  /** The id of the first entry with the name, INVALID if there is none. */
  function FindTargetId(index: seq<NameIndexEntry>, name: string): (id: Id)
    ensures IsValid(id) ==> NameIndexEntry(name, id) in index
    ensures (exists i :: 0 <= i < |index| && index[i].name == name) ==>
              NameIndexEntry(name, id) in index
    ensures (forall i :: 0 <= i < |index| ==> index[i].name != name) ==> id == INVALID
  {
    if index == [] then INVALID
    else if index[0].name == name then index[0].id
    else FindTargetId(index[1..], name)
  }

  /** The first entry with the name decides, whatever stands behind it. */
  lemma {:induction false} FirstEntryWins(index: seq<NameIndexEntry>, name: string, i: nat)
    requires i < |index| && index[i].name == name
    requires forall k :: 0 <= k < i ==> index[k].name != name
    ensures FindTargetId(index, name) == index[i].id
  {
    if i > 0 {
      FirstEntryWins(index[1..], name, i - 1);
    }
  }

  /** The search is a scan that stops at the first match. */
  method ScanForTargetId(index: seq<NameIndexEntry>, name: string) returns (id: Id)
    ensures id == FindTargetId(index, name)
  {
    for i := 0 to |index|
      invariant FindTargetId(index, name) == FindTargetId(index[i..], name)
    {
      if index[i].name == name {
        return index[i].id;
      }
    }
    return INVALID;
  }
}
