/**
  * First-fit guest placement of `VmAllocationPolicySimpler.findHostForGuest`:
  * the host list is scanned in list order and the first host that accepts the
  * guest is returned, or none when no host does. The suitability test
  * (`HostEntity.isSuitableForGuest`) is a parameter.
  */
module VmAllocationPolicySimpler {
  import opened Wrappers

  /** The host returned for `guest`: the first element of `hosts` that `isSuitable` accepts. */
  function FindHostForGuest<H(==), G>(hosts: seq<H>, guest: G, isSuitable: (H, G) -> bool): (r: Option<H>)
    ensures r.Some? ==> r.value in hosts && isSuitable(r.value, guest)
    ensures r.Some? ==> exists i :: 0 <= i < |hosts| && hosts[i] == r.value
                                 && forall j :: 0 <= j < i ==> !isSuitable(hosts[j], guest)
    ensures r.None? <==> forall h :: h in hosts ==> !isSuitable(h, guest)
  {
    if |hosts| == 0 then None
    else if isSuitable(hosts[0], guest) then
      Some(hosts[0])
    else
      var r := FindHostForGuest(hosts[1..], guest, isSuitable);
      assert forall h :: h in hosts ==> h == hosts[0] || h in hosts[1..];
      if r.Some? then
        var i :| 0 <= i < |hosts[1..]| && hosts[1..][i] == r.value
                 && forall j :: 0 <= j < i ==> !isSuitable(hosts[1..][j], guest);
        assert hosts[i + 1] == r.value;
        assert forall j :: 0 <= j < i + 1 ==> !isSuitable(hosts[j], guest) by {
          forall j | 0 <= j < i + 1 ensures !isSuitable(hosts[j], guest) {
            if j > 0 { assert hosts[j] == hosts[1..][j - 1]; }
          }
        }
        r
      else r
  }

  /** First fit is determined by position: a suitable host all of whose predecessors
      are unsuitable is exactly the host found. */
  lemma {:induction false} FirstSuitableIsFound<H, G>(hosts: seq<H>, guest: G, isSuitable: (H, G) -> bool, i: nat)
    requires i < |hosts| && isSuitable(hosts[i], guest)
    requires forall j :: 0 <= j < i ==> !isSuitable(hosts[j], guest)
    ensures FindHostForGuest(hosts, guest, isSuitable) == Some(hosts[i])
  {
    if i > 0 {
      assert !isSuitable(hosts[0], guest);
      forall j | 0 <= j < i - 1 ensures !isSuitable(hosts[1..][j], guest) {
        assert hosts[1..][j] == hosts[j + 1];
      }
      FirstSuitableIsFound(hosts[1..], guest, isSuitable, i - 1);
    }
  }

  /** List order is the tie-break: hosts appended after a list that already holds
      a suitable host are never chosen, and a list without one defers to its tail. */
  lemma {:induction false} FirstFitOfConcatenation<H, G>(front: seq<H>, back: seq<H>, guest: G, isSuitable: (H, G) -> bool)
    ensures FindHostForGuest(front + back, guest, isSuitable) ==
            if FindHostForGuest(front, guest, isSuitable).Some? then FindHostForGuest(front, guest, isSuitable)
            else FindHostForGuest(back, guest, isSuitable)
  {
    if |front| > 0 {
      assert (front + back)[0] == front[0];
      assert (front + back)[1..] == front[1..] + back;
      FirstFitOfConcatenation(front[1..], back, guest, isSuitable);
    } else {
      assert front + back == back;
    }
  }
}
