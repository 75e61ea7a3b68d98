// The Redis commands pdwfs sends, as functions on one instance.
module Redis {
  import opened Basics
  import Keys

  // A key holds either a string or a set; a set that loses its last member disappears.
  datatype Instance = Instance(strings: map<string, seq<byte>>, sets: map<string, set<string>>)

  // Every instance of the ring, by client identifier.
  type World = map<string, Instance>

  function StringAt(db: Instance, key: string): seq<byte>
  {
    if key in db.strings then db.strings[key] else []
  }

  function Members(db: Instance, key: string): set<string>
  {
    if key in db.sets then db.sets[key] else {}
  }

  function PutMembers(db: Instance, key: string, members: set<string>): Instance
  {
    db.(sets := if members == {} then db.sets - {key} else db.sets[key := members])
  }

  function SAdd(db: Instance, key: string, member: string): Instance
  {
    PutMembers(db, key, Members(db, key) + {member})
  }

  function SRem(db: Instance, key: string, member: string): Instance
  {
    PutMembers(db, key, Members(db, key) - {member})
  }

  function Set(db: Instance, key: string, data: seq<byte>): Instance
  {
    db.(strings := db.strings[key := data])
  }

  function SetNX(db: Instance, key: string, data: seq<byte>): Instance
  {
    if Exists(db, key) then db else Set(db, key, data)
  }

  function Unlink(db: Instance, key: string): Instance
  {
    Instance(db.strings - {key}, db.sets - {key})
  }

  predicate Exists(db: Instance, key: string)
  {
    key in db.strings || key in db.sets
  }

  // SETRANGE on a value: the value is padded with zero bytes up to off.
  function Overwrite(s: seq<byte>, off: nat, data: seq<byte>): (r: seq<byte>)
    ensures data == [] ==> r == s
    ensures data != [] ==> |r| == Max(|s|, off + |data|)
    ensures forall j :: 0 <= j < |r| && data != [] ==>
      r[j] == if off <= j < off + |data| then data[j - off] else if j < |s| then s[j] else 0
  {
    if data == [] then s
    else
      var padded := if |s| < off then s + Zeros(off - |s|) else s;
      padded[..off] + data + (if off + |data| < |s| then s[off + |data|..] else [])
  }

  // SETRANGE with an empty value neither pads nor creates the key.
  function SetRange(db: Instance, key: string, off: nat, data: seq<byte>): Instance
  {
    if data == [] then db else Set(db, key, Overwrite(StringAt(db, key), off, data))
  }

  // GETRANGE on a value: both ends included, negative ends counted from the end, clamped.
  function Range(s: seq<byte>, start: int, end: int): (r: seq<byte>)
    ensures 0 <= start && start <= end ==>
      |r| == Max(0, Min(end + 1, |s|) - start) &&
      forall j :: 0 <= j < |r| ==> r[j] == s[start + j]
    ensures start == 0 && end == -1 ==> r == s
  {
    var first := if start < 0 then Max(0, |s| + start) else start;
    var last := Min(if end < 0 then Max(0, |s| + end) else end, |s| - 1);
    if (start < 0 && end < 0 && start > end) || first > last then [] else s[first..last + 1]
  }

  // No command is ever sent to a key of the wrong type: strings and sets live in different key families.
  predicate IsSetKey(key: string) { Keys.Tail(key) == "stripes" || Keys.Tail(key) == "children" }

  ghost predicate WellTyped(w: World)
  {
    forall c :: c in w ==> TypedInstance(w[c])
  }

  ghost predicate TypedInstance(db: Instance)
  {
    && (forall k :: k in db.strings ==> !IsSetKey(k))
    && (forall k :: k in db.sets ==> IsSetKey(k) && db.sets[k] != {})
  }
}
