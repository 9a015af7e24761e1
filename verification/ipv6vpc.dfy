/** IPv6 subnet block assignment and default-route wiring of src/ipv6vpc.ts.

    The VPC's /56 is split by CloudFormation into 256 /64 blocks (IPv6 prefix
    notation, section 2.3 of RFC 4291); the model keeps that list abstract and
    only talks about the index into it. Subnets are identified by name. */
module Ipv6Vpc {
  import opened Wrappers

  /** Number of /64 blocks in the VPC's /56. */
  const BlockCount: nat := 256

  /** The IPv6 default route destination. */
  const DefaultDestination: string := "::/0"

  datatype RouterType = Gateway | EgressOnlyInternetGateway

  /** What the loop writes onto one subnet's CloudFormation resource. */
  datatype BlockAssignment = BlockAssignment(subnet: string, block: nat, assignIpv6AddressOnCreation: bool)

  /** One `subnet.addRoute("Default6Route", ...)` call. */
  datatype Route = Route(subnet: string, routerType: RouterType, routerId: string,
                         destination: string, enablesInternetConnectivity: bool)

  /** The gateway and routes the constructor declares. */
  datatype RoutePlan = RoutePlan(egressGateway: Option<string>, routes: seq<Route>)

  /** The order in which subnets receive blocks. */
  function Ordered(public: seq<string>, private: seq<string>, isolated: seq<string>): seq<string> {
    public + private + isolated
  }

  /** The `forEach((subnet, i) => ...)` loop over public, private and isolated
      subnets: the subnet at position `i` gets block `i` and auto-assignment. */
  method AssignBlocks(public: seq<string>, private: seq<string>, isolated: seq<string>) returns (a: seq<BlockAssignment>)
    ensures |a| == |public| + |private| + |isolated|
    ensures forall i :: 0 <= i < |a| ==> a[i].subnet == Ordered(public, private, isolated)[i]
    ensures forall i :: 0 <= i < |public| ==> a[i].subnet == public[i] && a[i].block == i
    ensures forall j :: 0 <= j < |private| ==>
              a[|public| + j].subnet == private[j] && a[|public| + j].block == |public| + j
    ensures forall k :: 0 <= k < |isolated| ==>
              a[|public| + |private| + k].subnet == isolated[k]
              && a[|public| + |private| + k].block == |public| + |private| + k
    ensures forall i, j :: 0 <= i < j < |a| ==> a[i].block != a[j].block
    ensures |a| <= BlockCount ==> forall i :: 0 <= i < |a| ==> a[i].block < BlockCount
    ensures forall i :: 0 <= i < |a| ==> a[i].assignIpv6AddressOnCreation
  {
    var all := Ordered(public, private, isolated);
    a := [];
    var i := 0;
    while i < |all|
      invariant 0 <= i <= |all|
      invariant |a| == i
      invariant forall k :: 0 <= k < i ==> a[k] == BlockAssignment(all[k], k, true)
    {
      a := a + [BlockAssignment(all[i], i, true)];
      i := i + 1;
    }
  }

  /** `addDefaultIpv6Routes(subnets, gatewayId, routerType)` */
  function DefaultRoutes(subnets: seq<string>, gatewayId: string, routerType: RouterType): (r: seq<Route>)
    ensures |r| == |subnets|
    ensures forall i :: 0 <= i < |r| ==> r[i] == Route(subnets[i], routerType, gatewayId, DefaultDestination, true)
  {
    if |subnets| == 0 then []
    else [Route(subnets[0], routerType, gatewayId, DefaultDestination, true)]
         + DefaultRoutes(subnets[1..], gatewayId, routerType)
  }

  /** `if (this.internetGatewayId)`: an empty id counts as absent. */
  predicate HasInternetGateway(internetGatewayId: Option<string>) {
    internetGatewayId.Some? && internetGatewayId.value != ""
  }

  /** The route wiring after the block loop. `egressRef` is the reference token
      the framework hands out for the egress-only gateway it would create. */
  function Ipv6Routes(public: seq<string>, private: seq<string>, internetGatewayId: Option<string>,
                      egressRef: string): (p: RoutePlan)
    ensures p.egressGateway.Some? <==> |private| > 0
    ensures p.egressGateway.Some? ==> p.egressGateway.value == egressRef
    ensures |p.routes| == (if HasInternetGateway(internetGatewayId) then |public| else 0) + |private|
    ensures forall r :: r in p.routes ==> r.destination == DefaultDestination && r.enablesInternetConnectivity
    ensures forall r :: r in p.routes ==> r.subnet in public || r.subnet in private
    ensures HasInternetGateway(internetGatewayId) ==>
              forall i :: 0 <= i < |public| ==>
                Route(public[i], Gateway, internetGatewayId.value, DefaultDestination, true) in p.routes
    ensures !HasInternetGateway(internetGatewayId) ==>
              forall r :: r in p.routes ==> r.routerType == EgressOnlyInternetGateway
    ensures forall r :: r in p.routes && r.routerType == Gateway ==>
              HasInternetGateway(internetGatewayId) && r.routerId == internetGatewayId.value && r.subnet in public
    ensures forall r :: r in p.routes && r.routerType == EgressOnlyInternetGateway ==>
              r.routerId == egressRef && r.subnet in private
    ensures forall j :: 0 <= j < |private| ==>
              Route(private[j], EgressOnlyInternetGateway, egressRef, DefaultDestination, true) in p.routes
  {
    var publicRoutes :=
      if HasInternetGateway(internetGatewayId)
      then DefaultRoutes(public, internetGatewayId.value, Gateway)
      else [];
    var privateRoutes :=
      if |private| > 0 then DefaultRoutes(private, egressRef, EgressOnlyInternetGateway) else [];
    var egress := if |private| > 0 then Some(egressRef) else None;
    assert forall r :: r in publicRoutes ==>
             r.routerType == Gateway && HasInternetGateway(internetGatewayId)
             && r.routerId == internetGatewayId.value && r.subnet in public by {
      forall r | r in publicRoutes
        ensures r.routerType == Gateway && HasInternetGateway(internetGatewayId)
                && r.routerId == internetGatewayId.value && r.subnet in public
      {
        var i :| 0 <= i < |publicRoutes| && publicRoutes[i] == r;
      }
    }
    assert forall r :: r in privateRoutes ==>
             r.routerType == EgressOnlyInternetGateway && r.routerId == egressRef && r.subnet in private by {
      forall r | r in privateRoutes
        ensures r.routerType == EgressOnlyInternetGateway && r.routerId == egressRef && r.subnet in private
      {
        var i :| 0 <= i < |privateRoutes| && privateRoutes[i] == r;
      }
    }
    RoutePlan(egress, publicRoutes + privateRoutes)
  }

  /** A subnet that is declared only as isolated never receives a default route. */
  lemma IsolatedSubnetsHaveNoRoute(public: seq<string>, private: seq<string>, isolated: seq<string>,
                                   internetGatewayId: Option<string>, egressRef: string, s: string)
    requires s in isolated && s !in public && s !in private
    ensures forall r :: r in Ipv6Routes(public, private, internetGatewayId, egressRef).routes ==> r.subnet != s
  {
  }

  /** Without private subnets no egress-only gateway exists and every route, if
      any, leads to the internet gateway. */
  lemma NoPrivateSubnetsNoEgressGateway(public: seq<string>, internetGatewayId: Option<string>, egressRef: string)
    ensures Ipv6Routes(public, [], internetGatewayId, egressRef).egressGateway == None
    ensures forall r :: r in Ipv6Routes(public, [], internetGatewayId, egressRef).routes ==>
              && r.routerType == Gateway
              && HasInternetGateway(internetGatewayId)
              && r.routerId == internetGatewayId.value
              && r.subnet in public
  {
  }
}
