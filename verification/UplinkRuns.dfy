/**
 The uplinks of a whole run: each frame carries one value of the counter that FcntModel
 hands out, and its payload is masked with the blocks PayloadCipher derives from it.
 */
module UplinkRuns {
  import opened Bytes
  import opened PayloadCipher
  import opened FcntModel
  import U = Uplink

  /** The frame sent with a counter value. */
  ghost predicate Carries(f: U.Frame, o: Issue) {
    f.devAddr == o.addr && f.fcnt == o.value && |f.payload| <= U.MAX_APP_PAYLOAD
  }

  /** One frame for every value handed out. */
  ghost predicate Sent(frames: seq<U.Frame>, out: seq<Issue>) {
    |frames| == |out| && forall k :: 0 <= k < |frames| ==> Carries(frames[k], out[k])
  }

  ghost predicate UsesBlock(f: U.Frame, i: nat) {
    1 <= i <= BlockCount(|f.payload|)
  }

  /** A payload of at most 242 bytes is masked with at most 16 blocks. */
  lemma SixteenBlocks(f: U.Frame, o: Issue, i: nat)
    requires Carries(f, o) && UsesBlock(f, i)
    ensures i <= 16
  {
  }

  /**
   Over every run of draws, reboots, edits and bad writes, as long as an address is only drawn
   from while one holder caches it: no AES input block that masks a payload of this address
   masks another, not within a frame, not between frames, not across reboots.
   */
  lemma KeystreamNeverRepeats(es: seq<Event>, a: u32, frames: seq<U.Frame>, k: nat, i: nat, l: nat, j: nat)
    requires a != 0 && DrawnAlone(FRESH, es, a) && Sent(frames, Issued(FRESH, es))
    requires k < |frames| && l < |frames| && frames[k].devAddr == a
    requires UsesBlock(frames[k], i) && UsesBlock(frames[l], j)
    requires ABlock(frames[k].devAddr, frames[k].fcnt, i) == ABlock(frames[l].devAddr, frames[l].fcnt, j)
    ensures k == l && i == j
  {
    var out := Issued(FRESH, es);
    SixteenBlocks(frames[k], out[k], i);
    SixteenBlocks(frames[l], out[l], j);
    ABlockInjective(frames[k].devAddr, frames[k].fcnt, i, frames[l].devAddr, frames[l].fcnt, j);
    FcntStrictlyIncreases(es, a);
    assert out[k].addr == out[l].addr == a && out[k].value == out[l].value;
  }
}
