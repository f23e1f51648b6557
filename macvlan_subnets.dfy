/** The subnet search of the macvlan driver: which configured subnet governs
    an endpoint address (getSubnetForIP in macvlan_joinleave.go). */
module MacvlanSubnets {
  import opened Wrappers
  import opened IPAddr

  /** A configured subnet (`ipSubnet`): its CIDR and its gateway, each as the
      outcome of `net.ParseCIDR` on the configured text (None when the text
      does not parse). `subnetIP` is the parsed network (the second result,
      host bits cleared), which the search tests for containment; `gwIP.ip`
      is the gateway address as written (the first result), which Join
      hands to the join info. */
  datatype IpSubnet = IpSubnet(subnetIP: Option<IPNet>, gwIP: Option<IPNet>)

  /** The subnet governs the address: it parses, its mask has the same number
      of ones as the address's own mask, and it contains the address. */
  predicate Qualifies(ip: IPNet, s: IpSubnet) {
    s.subnetIP.Some? && s.subnetIP.value.ones == ip.ones && Contains(s.subnetIP.value, ip.ip)
  }

  /** The search walks past every subnet before position k: each of them
      parses and none of them qualifies. */
  predicate PassedOver(ip: IPNet, subnets: seq<IpSubnet>, k: nat)
    requires k <= |subnets|
  {
    forall j :: 0 <= j < k ==> subnets[j].subnetIP.Some? && !Qualifies(ip, subnets[j])
  }

  /** Position of the subnet the search returns, if any. A subnet that does
      not parse ends the search with no result. */
  function SubnetIndexFor(ip: IPNet, subnets: seq<IpSubnet>): (r: Option<nat>)
    ensures r.Some? ==> r.value < |subnets| && Qualifies(ip, subnets[r.value])
    ensures r.Some? ==> PassedOver(ip, subnets, r.value)
    decreases |subnets|
  {
    if subnets == [] then None
    else if subnets[0].subnetIP.None? then None
    else if Qualifies(ip, subnets[0]) then Some(0)
    else
      match SubnetIndexFor(ip, subnets[1..])
      case None => None
      case Some(k) =>
        assert forall j :: 1 <= j < k + 1 ==> subnets[j] == subnets[1..][j - 1];
        Some(k + 1)
  }

  /** The subnet the search returns, if any. */
  function SubnetFor(ip: IPNet, subnets: seq<IpSubnet>): (r: Option<IpSubnet>)
    ensures r.Some? ==> r.value in subnets && Qualifies(ip, r.value)
  {
    match SubnetIndexFor(ip, subnets)
    case None => None
    case Some(k) => Some(subnets[k])
  }

  /** The search returns position k exactly when k qualifies and the search
      walks past everything before it: the first match in list order. */
  lemma {:induction false} SubnetIndexForIsFirstMatch(ip: IPNet, subnets: seq<IpSubnet>, k: nat)
    ensures SubnetIndexFor(ip, subnets) == Some(k)
        <==> k < |subnets| && Qualifies(ip, subnets[k]) && PassedOver(ip, subnets, k)
  {
    if k < |subnets| && Qualifies(ip, subnets[k]) && PassedOver(ip, subnets, k) && k > 0 {
      assert subnets[0].subnetIP.Some? && !Qualifies(ip, subnets[0]);
      assert PassedOver(ip, subnets[1..], k - 1) by {
        forall j | 0 <= j < k - 1
          ensures subnets[1..][j].subnetIP.Some? && !Qualifies(ip, subnets[1..][j])
        {
          assert subnets[1..][j] == subnets[j + 1];
        }
      }
      assert subnets[1..][k - 1] == subnets[k];
      SubnetIndexForIsFirstMatch(ip, subnets[1..], k - 1);
    }
  }

  /** The search finds nothing exactly when no subnet the search reaches
      qualifies. */
  lemma {:induction false} SubnetIndexForNone(ip: IPNet, subnets: seq<IpSubnet>)
    ensures SubnetIndexFor(ip, subnets).None?
        <==> forall k :: 0 <= k < |subnets| && PassedOver(ip, subnets, k) ==> !Qualifies(ip, subnets[k])
  {
    if r :| SubnetIndexFor(ip, subnets) == Some(r) {
      SubnetIndexForIsFirstMatch(ip, subnets, r);
    } else {
      forall k | 0 <= k < |subnets| && PassedOver(ip, subnets, k)
        ensures !Qualifies(ip, subnets[k])
      {
        SubnetIndexForIsFirstMatch(ip, subnets, k);
      }
    }
  }

  /** A subnet whose mask length differs from the address's is never
      returned, even when it would contain the address. */
  lemma MismatchedMaskNeverChosen(ip: IPNet, subnets: seq<IpSubnet>, s: IpSubnet)
    requires s.subnetIP.Some? && s.subnetIP.value.ones != ip.ones
    ensures SubnetFor(ip, subnets) != Some(s)
  {
  }

  /** A subnet that does not parse stops the search with no result, whatever
      follows it in the list, as long as nothing before it qualified. */
  lemma {:induction false} UnparseableStopsSearch(ip: IPNet, subnets: seq<IpSubnet>, k: nat)
    requires k < |subnets| && subnets[k].subnetIP.None?
    requires forall j :: 0 <= j < k ==> !Qualifies(ip, subnets[j])
    ensures SubnetFor(ip, subnets) == None
  {
    if k > 0 && subnets[0].subnetIP.Some? {
      assert !Qualifies(ip, subnets[0]);
      forall j | 0 <= j < k - 1 ensures !Qualifies(ip, subnets[1..][j]) {
        assert subnets[1..][j] == subnets[j + 1];
      }
      UnparseableStopsSearch(ip, subnets[1..], k - 1);
    }
  }

  /** When every subnet parses and exactly one of them qualifies, the search
      returns that one. */
  lemma UniqueQualifierChosen(ip: IPNet, subnets: seq<IpSubnet>, k: nat)
    requires forall j :: 0 <= j < |subnets| ==> subnets[j].subnetIP.Some?
    requires k < |subnets| && Qualifies(ip, subnets[k])
    requires forall j :: 0 <= j < |subnets| && j != k ==> !Qualifies(ip, subnets[j])
    ensures SubnetFor(ip, subnets) == Some(subnets[k])
  {
    SubnetIndexForIsFirstMatch(ip, subnets, k);
  }

  /** getSubnetForIP: walks the subnets in order, stops with no result at the
      first one that does not parse, skips those whose mask length differs
      from the address's, and returns the first that contains the address. */
  method GetSubnetForIP(ip: IPNet, subnets: seq<IpSubnet>) returns (r: Option<IpSubnet>)
    ensures r == SubnetFor(ip, subnets)
  {
    var i := 0;
    while i < |subnets|
      invariant 0 <= i <= |subnets|
      invariant PassedOver(ip, subnets, i)
    {
      var s := subnets[i];
      if s.subnetIP.None? {
        UnparseableStopsSearch(ip, subnets, i);
        return None;
      }
      var snet := s.subnetIP.value;
      if snet.ones != ip.ones {
        i := i + 1;
        continue;
      }
      if Contains(snet, ip.ip) {
        SubnetIndexForIsFirstMatch(ip, subnets, i);
        return Some(s);
      }
      i := i + 1;
    }
    SubnetIndexForNone(ip, subnets);
    return None;
  }
}
