/** Which LoRaWAN identity a source is sent under: the most specific entry, and of those the first. */
module DeviceTable {
  import opened Bytes

  const MAX_DEVICES := 4

  const PROTO_MT: u8 := 1
  const PROTO_MC: u8 := 2
  const PROTO_RNS: u8 := 3
  const PROTO_CUSTOM: u8 := 4
  const PROTO_LORAWAN: u8 := 5

  const SRC_ANY: u8 := 0
  const SRC_MT_NODE: u8 := 1
  const SRC_PROTO: u8 := 2

  datatype Device = Device(inUse: bool, srcSel: u8, srcMatch: u32, devAddr: u32)

  function ProtoOf(sync: u8): u8 {
    if sync == 0x2B then PROTO_MT
    else if sync == 0x12 then PROTO_MC
    else if sync == 0x42 then PROTO_RNS
    else if sync == 0x34 then PROTO_LORAWAN
    else PROTO_CUSTOM
  }

  /** An entry takes part in one pass only: node ids in pass 2, protocols in 1, the default in 0. */
  predicate Matches(d: Device, proto: u8, srcId: u32, specificity: nat) {
    && d.inUse && d.devAddr != 0
    && (if d.srcSel == SRC_MT_NODE then specificity == 2 && proto == PROTO_MT && srcId == d.srcMatch
        else if d.srcSel == SRC_PROTO then specificity == 1 && proto == d.srcMatch % 256
        else d.srcSel == SRC_ANY && specificity == 0)
  }

  /** Does the entry accept the source at all? */
  predicate Accepts(d: Device, proto: u8, srcId: u32) {
    && d.inUse && d.devAddr != 0
    && (d.srcSel == SRC_ANY
        || (d.srcSel == SRC_PROTO && proto == d.srcMatch % 256)
        || (d.srcSel == SRC_MT_NODE && proto == PROTO_MT && srcId == d.srcMatch))
  }

  /** How narrowly an entry selects its sources. */
  function Rank(d: Device): nat {
    if d.srcSel == SRC_MT_NODE then 2 else if d.srcSel == SRC_PROTO then 1 else 0
  }

  lemma MatchesAtItsRank(d: Device, proto: u8, srcId: u32, specificity: nat)
    ensures Matches(d, proto, srcId, specificity) <==> Accepts(d, proto, srcId) && specificity == Rank(d)
  {
  }

  /** Three passes from the most specific; -1 when no entry accepts the source. */
  method Resolve(table: array<Device>, sync: u8, srcId: u32) returns (i: int)
    requires table.Length == MAX_DEVICES
    ensures i == -1 || 0 <= i < MAX_DEVICES
    ensures i == -1 <==> forall k :: 0 <= k < MAX_DEVICES ==> !Accepts(table[k], ProtoOf(sync), srcId)
    ensures i >= 0 ==> Accepts(table[i], ProtoOf(sync), srcId)
                       && forall k :: 0 <= k < MAX_DEVICES && Accepts(table[k], ProtoOf(sync), srcId) ==>
                            Rank(table[k]) < Rank(table[i]) || (Rank(table[k]) == Rank(table[i]) && i <= k)
  {
    var proto := ProtoOf(sync);
    var spec := 2;
    while spec >= 0
      invariant -1 <= spec <= 2
      invariant forall k :: 0 <= k < MAX_DEVICES && Accepts(table[k], proto, srcId) ==> Rank(table[k]) <= spec
    {
      i := 0;
      while i < MAX_DEVICES
        invariant 0 <= i <= MAX_DEVICES
        invariant forall k :: 0 <= k < i ==> !Matches(table[k], proto, srcId, spec)
      {
        if Matches(table[i], proto, srcId, spec) {
          forall k | 0 <= k < MAX_DEVICES && Accepts(table[k], proto, srcId)
            ensures Rank(table[k]) < Rank(table[i]) || (Rank(table[k]) == Rank(table[i]) && i <= k)
          {
            MatchesAtItsRank(table[k], proto, srcId, spec);
          }
          return;
        }
        i := i + 1;
      }
      forall k | 0 <= k < MAX_DEVICES && Accepts(table[k], proto, srcId) ensures Rank(table[k]) <= spec - 1 {
        MatchesAtItsRank(table[k], proto, srcId, spec);
      }
      spec := spec - 1;
    }
    i := -1;
  }
}
