/** Public-subnet selection of the NAT instance component (pkg/fcknat.go).

    The cloud lookups are inputs: `tables` maps each route-table id that
    `LookupRouteTable` can resolve to what it returns (an id missing from the map
    is a failed lookup), and `vpcSubnets` is what `GetSubnets` returns for the
    VPC (`None` when it fails).
 */
module FckNat {
  import opened StringOrder
  import opened Sorting

  datatype Option<T> = None | Some(value: T)

  /** One route of a route table. */
  datatype Route = Route(cidrBlock: string, gatewayId: string)

  /** One association of a route table with a subnet. */
  datatype Association = Association(subnetId: string)

  /** What a route-table lookup returns: its routes and its associations, in order. */
  datatype RouteTable = RouteTable(routes: seq<Route>, associations: seq<Association>)

  /** The VPC the NAT instance goes into. */
  datatype Vpc = Vpc(id: string, mainRouteTableId: string)

  /** The error half of a `(value, error)` result, and the one panic on the way. */
  datatype Status =
    | Ok
    | LookupFailed(resourceId: string)
      // `Associations[0]` on a public table without associations: Go panics here
    | MissingAssociation(routeTableId: string)

  /** Outcome of `subnetIds.Index(0)`. */
  datatype Selection = Chosen(subnetId: string) | NoSubnet | Panicked

  const DefaultRouteCidr := "0.0.0.0/0"
  const InternetGatewayPrefix := "igw-"

  // ---------------------------------------------------------------- hasPublicRoute

  /** The route sends the default destination to an internet gateway. */
  predicate IsInternetRoute(r: Route) {
    r.cidrBlock == DefaultRouteCidr && InternetGatewayPrefix <= r.gatewayId
  }

  /** `slices.IndexFunc(routes, IsInternetRoute)`: the first matching index, or -1. */
  function IndexOfInternetRoute(routes: seq<Route>): (idx: int)
    ensures -1 <= idx < |routes|
    ensures idx == -1 <==> forall i :: 0 <= i < |routes| ==> !IsInternetRoute(routes[i])
    ensures 0 <= idx ==> IsInternetRoute(routes[idx])
    ensures forall i :: 0 <= i < idx ==> !IsInternetRoute(routes[i])
  {
    if |routes| == 0 then -1
    else if IsInternetRoute(routes[0]) then 0
    else
      var rest := IndexOfInternetRoute(routes[1..]);
      if rest == -1 then -1 else rest + 1
  }

  /** A route table is public when one of its routes goes to an internet gateway. */
  function HasPublicRoute(routes: seq<Route>): (public: bool)
    ensures public <==> exists i :: 0 <= i < |routes| && IsInternetRoute(routes[i])
    ensures routes == [] ==> !public
  {
    IndexOfInternetRoute(routes) != -1
  }

  // ---------------------------------------------------------------- vpcHasMultipleRoutes

  /** The VPC is flat exactly when its only route table is its main one. */
  function VpcHasMultipleRoutes(routeTableIds: seq<string>, mainRouteTableId: string): (multiple: bool)
    ensures !multiple <==> routeTableIds == [mainRouteTableId]
    ensures routeTableIds == [] ==> multiple
  {
    if |routeTableIds| == 1 && mainRouteTableId == routeTableIds[0] then false else true
  }

  // ---------------------------------------------------------------- getSubnetIdsFromVpcId

  /** The VPC's subnet ids; on a failed lookup the one-element list `[""]`. */
  function GetSubnetIdsFromVpcId(vpcId: string, vpcSubnets: Option<seq<string>>): (r: (seq<string>, Status))
    ensures r.1 == Ok || r.1 == LookupFailed(vpcId)
    ensures r.1.LookupFailed? <==> vpcSubnets.None?
    ensures r.1.LookupFailed? ==> r.0 == [""]
    ensures r.1.Ok? ==> r.0 == vpcSubnets.value
  {
    match vpcSubnets
    case None => ([""], LookupFailed(vpcId))
    case Some(ids) => (ids, Ok)
  }

  // ---------------------------------------------------------------- getSubnetsFromRouteTableIds

  /** Every route-table id can be looked up. */
  predicate AllFound(routeTableIds: seq<string>, tables: map<string, RouteTable>) {
    forall id :: id in routeTableIds ==> id in tables
  }

  /** A public route table with no association, whose `Associations[0]` panics. */
  predicate LacksAssociation(t: RouteTable) {
    HasPublicRoute(t.routes) && |t.associations| == 0
  }

  predicate SomePublicTableLacksAssociation(routeTableIds: seq<string>, tables: map<string, RouteTable>) {
    exists id :: id in routeTableIds && id in tables && LacksAssociation(tables[id])
  }

  /** What one route table adds to the candidates: the subnet of its first
      association when it is public, nothing otherwise. */
  function Contribution(t: RouteTable): seq<string> {
    if HasPublicRoute(t.routes) && |t.associations| > 0 then [t.associations[0].subnetId] else []
  }

  /** The contributions of the tables named by `ids`, in that order. */
  function Collect(ids: seq<string>, tables: map<string, RouteTable>): seq<string> {
    if ids == [] then []
    else
      var last := ids[|ids| - 1];
      Collect(ids[..|ids| - 1], tables) + (if last in tables then Contribution(tables[last]) else [])
  }

  /** `ids` without repetitions, each id kept at its first occurrence. */
  function FirstOccurrences(ids: seq<string>): seq<string> {
    if ids == [] then []
    else
      var init := ids[..|ids| - 1];
      if ids[|ids| - 1] in init then FirstOccurrences(init)
      else FirstOccurrences(init) + [ids[|ids| - 1]]
  }

  /** Reference list of candidates: one entry per distinct public route table,
      listed in the order the ids first appear. */
  function PublicSubnets(routeTableIds: seq<string>, tables: map<string, RouteTable>): seq<string> {
    Collect(FirstOccurrences(routeTableIds), tables)
  }

  predicate NoDuplicates(s: seq<string>) {
    forall i, j :: 0 <= i < j < |s| ==> s[i] != s[j]
  }

  /** Looks every route table up, stopping at the first failure, keeps them in a
      map keyed by id, then walks the map in no particular order and collects the
      first associated subnet of each public table. */
  method GetSubnetsFromRouteTableIds(routeTableIds: seq<string>, tables: map<string, RouteTable>)
    returns (subnetIds: seq<string>, status: Status)
    ensures status.LookupFailed? <==> !AllFound(routeTableIds, tables)
    ensures status.LookupFailed? ==> subnetIds == []
    ensures status.LookupFailed? ==>
      exists i :: 0 <= i < |routeTableIds| && routeTableIds[i] == status.resourceId
        && status.resourceId !in tables && AllFound(routeTableIds[..i], tables)
    ensures status.MissingAssociation? <==>
      AllFound(routeTableIds, tables) && SomePublicTableLacksAssociation(routeTableIds, tables)
    ensures status.MissingAssociation? ==>
      status.routeTableId in routeTableIds && status.routeTableId in tables
        && LacksAssociation(tables[status.routeTableId])
    ensures status.Ok? ==> multiset(subnetIds) == multiset(PublicSubnets(routeTableIds, tables))
  {
    var routeTablesMap: map<string, RouteTable> := map[];
    subnetIds, status := [], Ok;
    var i := 0;
    while i < |routeTableIds|
      invariant 0 <= i <= |routeTableIds|
      invariant AllFound(routeTableIds[..i], tables)
      invariant forall id :: id in routeTablesMap <==> id in routeTableIds[..i]
      invariant forall id :: id in routeTablesMap ==> id in tables && routeTablesMap[id] == tables[id]
    {
      var id := routeTableIds[i];
      if id !in tables {
        return subnetIds, LookupFailed(id);
      }
      routeTablesMap := routeTablesMap[id := tables[id]];
      assert routeTableIds[..i + 1] == routeTableIds[..i] + [id];
      i := i + 1;
    }
    assert routeTableIds[..i] == routeTableIds;

    // Go's map iteration order is unspecified: any key may come next.
    var remaining := routeTablesMap.Keys;
    ghost var visited: seq<string> := [];
    while remaining != {}
      invariant remaining <= routeTablesMap.Keys
      invariant NoDuplicates(visited)
      invariant forall id :: id in visited <==> id in routeTablesMap && id !in remaining
      invariant subnetIds == Collect(visited, tables)
      invariant forall id :: id in visited ==> !LacksAssociation(tables[id])
      decreases remaining
    {
      var id :| id in remaining;
      var routeValue := routeTablesMap[id];
      if HasPublicRoute(routeValue.routes) {
        if |routeValue.associations| == 0 {
          return [], MissingAssociation(id);
        }
        subnetIds := subnetIds + [routeValue.associations[0].subnetId];
      }
      assert (visited + [id])[..|visited|] == visited;
      visited := visited + [id];
      remaining := remaining - {id};
    }

    FirstOccurrencesProperties(routeTableIds);
    SameElementsSameMultiset(visited, FirstOccurrences(routeTableIds));
    CollectPermutation(visited, FirstOccurrences(routeTableIds), tables);
  }

  // ---------------------------------------------------------------- the subnetIds closure

  /** The candidates of the branch the closure takes, before sorting: in the
      multi-route branch the public subnets (none when a lookup failed, since the
      error is discarded), in the flat branch every subnet of the VPC. */
  function BranchCandidates(multipleRoutes: bool, routeTableIds: seq<string>, vpcId: string,
                            tables: map<string, RouteTable>, vpcSubnets: Option<seq<string>>): seq<string>
  {
    if multipleRoutes then
      if AllFound(routeTableIds, tables) then PublicSubnets(routeTableIds, tables) else []
    else
      GetSubnetIdsFromVpcId(vpcId, vpcSubnets).0
  }

  /** The multi-route branch reaches `Associations[0]` of a table without associations. */
  predicate Panics(multipleRoutes: bool, routeTableIds: seq<string>, tables: map<string, RouteTable>) {
    multipleRoutes && AllFound(routeTableIds, tables) && SomePublicTableLacksAssociation(routeTableIds, tables)
  }

  /** The closure that computes `subnetIds`: gathers the branch's candidates,
      ignores the lookup error, and sorts the slice in place (twice in the
      multi-route branch). */
  method SubnetIds(multipleRoutes: bool, routeTableIds: seq<string>, vpcId: string,
                   tables: map<string, RouteTable>, vpcSubnets: Option<seq<string>>)
    returns (subnetIds: seq<string>, panicked: bool)
    ensures panicked <==> Panics(multipleRoutes, routeTableIds, tables)
    ensures !panicked ==> Sorted(subnetIds)
    ensures !panicked ==>
      multiset(subnetIds) == multiset(BranchCandidates(multipleRoutes, routeTableIds, vpcId, tables, vpcSubnets))
  {
    var found: seq<string>;
    if multipleRoutes {
      var status;
      found, status := GetSubnetsFromRouteTableIds(routeTableIds, tables);
      if status.MissingAssociation? {
        return [], true;
      }
    } else {
      var r := GetSubnetIdsFromVpcId(vpcId, vpcSubnets);
      found := r.0;
    }
    var a := new string[|found|](k requires 0 <= k < |found| => found[k]);
    assert a[..] == found;
    if multipleRoutes {
      SortStrings(a);
    }
    SortStrings(a);
    subnetIds, panicked := a[..], false;
  }

  /** The candidates of the branch chosen for this VPC. */
  function Candidates(vpc: Vpc, routeTableIds: seq<string>,
                      tables: map<string, RouteTable>, vpcSubnets: Option<seq<string>>): seq<string>
  {
    BranchCandidates(VpcHasMultipleRoutes(routeTableIds, vpc.mainRouteTableId),
                     routeTableIds, vpc.id, tables, vpcSubnets)
  }

  /** `subnetIds.Index(0)`: the subnet the NAT instance is placed in is the least
      candidate in string order. */
  method SelectSubnet(vpc: Vpc, routeTableIds: seq<string>,
                      tables: map<string, RouteTable>, vpcSubnets: Option<seq<string>>)
    returns (selection: Selection)
    ensures selection.Panicked? <==>
      Panics(VpcHasMultipleRoutes(routeTableIds, vpc.mainRouteTableId), routeTableIds, tables)
    ensures selection.NoSubnet? <==>
      !selection.Panicked? && Candidates(vpc, routeTableIds, tables, vpcSubnets) == []
    ensures selection.Chosen? ==>
      selection.subnetId in Candidates(vpc, routeTableIds, tables, vpcSubnets)
    ensures selection.Chosen? ==>
      forall c :: c in Candidates(vpc, routeTableIds, tables, vpcSubnets) ==> AtMost(selection.subnetId, c)
  {
    var multipleRoutes := VpcHasMultipleRoutes(routeTableIds, vpc.mainRouteTableId);
    var subnetIds, panicked := SubnetIds(multipleRoutes, routeTableIds, vpc.id, tables, vpcSubnets);
    ghost var candidates := Candidates(vpc, routeTableIds, tables, vpcSubnets);
    if panicked {
      selection := Panicked;
    } else if |subnetIds| == 0 {
      assert |multiset(candidates)| == 0;
      selection := NoSubnet;
    } else {
      SortedHeadLeast(subnetIds);
      assert subnetIds[0] in multiset(candidates);
      forall c | c in candidates ensures AtMost(subnetIds[0], c) {
        assert c in multiset(subnetIds);
      }
      selection := Chosen(subnetIds[0]);
    }
  }

  // ---------------------------------------------------------------- lemmas

  lemma {:induction false} FirstOccurrencesProperties(ids: seq<string>)
    ensures NoDuplicates(FirstOccurrences(ids))
    ensures forall id :: id in FirstOccurrences(ids) <==> id in ids
  {
    if ids != [] {
      var init := ids[..|ids| - 1];
      FirstOccurrencesProperties(init);
      assert ids == init + [ids[|ids| - 1]];
    }
  }

  lemma {:induction false} NoDuplicatesCount(s: seq<string>, x: string)
    requires NoDuplicates(s)
    ensures multiset(s)[x] == if x in s then 1 else 0
  {
    if s != [] {
      var init := s[..|s| - 1];
      assert s == init + [s[|s| - 1]];
      NoDuplicatesCount(init, x);
    }
  }

  lemma SameElementsSameMultiset(s: seq<string>, t: seq<string>)
    requires NoDuplicates(s) && NoDuplicates(t)
    requires forall x :: x in s <==> x in t
    ensures multiset(s) == multiset(t)
  {
    forall x ensures multiset(s)[x] == multiset(t)[x] {
      NoDuplicatesCount(s, x);
      NoDuplicatesCount(t, x);
    }
  }

  lemma {:induction false} CollectAppend(s: seq<string>, t: seq<string>, tables: map<string, RouteTable>)
    ensures Collect(s + t, tables) == Collect(s, tables) + Collect(t, tables)
    decreases |t|
  {
    if t != [] {
      var tInit := t[..|t| - 1];
      assert (s + t)[..|s + t| - 1] == s + tInit;
      CollectAppend(s, tInit, tables);
    } else {
      assert s + t == s;
    }
  }

  /** Taking one id out of a list takes its contribution out of the candidates. */
  lemma RemoveOne(t: seq<string>, i: nat, tables: map<string, RouteTable>)
    requires i < |t|
    ensures multiset(t[..i] + t[i + 1..]) == multiset(t) - multiset{t[i]}
    ensures multiset(Collect(t, tables))
      == multiset(Collect(t[..i] + t[i + 1..], tables)) + multiset(Collect([t[i]], tables))
  {
    assert t == t[..i] + [t[i]] + t[i + 1..];
    CollectAppend(t[..i] + [t[i]], t[i + 1..], tables);
    CollectAppend(t[..i], [t[i]], tables);
    CollectAppend(t[..i], t[i + 1..], tables);
  }

  /** Reordering the route-table ids reorders the candidates and nothing else. */
  lemma {:induction false} CollectPermutation(s: seq<string>, t: seq<string>, tables: map<string, RouteTable>)
    requires multiset(s) == multiset(t)
    ensures multiset(Collect(s, tables)) == multiset(Collect(t, tables))
    decreases |s|
  {
    if s == [] {
      assert |multiset(t)| == 0;
    } else {
      var n := |s| - 1;
      assert s[n] in multiset(t);
      var i :| 0 <= i < |t| && t[i] == s[n];
      RemoveOne(s, n, tables);
      RemoveOne(t, i, tables);
      assert s[..n] + s[n + 1..] == s[..n];
      CollectPermutation(s[..n], t[..i] + t[i + 1..], tables);
    }
  }

  lemma {:induction false} CollectLength(ids: seq<string>, tables: map<string, RouteTable>)
    ensures |Collect(ids, tables)| <= |ids|
  {
    if ids != [] {
      CollectLength(ids[..|ids| - 1], tables);
    }
  }

  lemma {:induction false} NoDuplicatesCardinality(s: seq<string>)
    requires NoDuplicates(s)
    ensures |set x | x in s| == |s|
  {
    if s != [] {
      var init := s[..|s| - 1];
      var last := s[|s| - 1];
      NoDuplicatesCardinality(init);
      assert (set x | x in s) == (set x | x in init) + {last};
    }
  }

  /** A route-table id listed twice contributes at most one candidate: there are
      at most as many candidates as distinct route-table ids. */
  lemma CandidateCountBound(routeTableIds: seq<string>, tables: map<string, RouteTable>)
    ensures |PublicSubnets(routeTableIds, tables)| <= |set id | id in routeTableIds|
  {
    var firsts := FirstOccurrences(routeTableIds);
    FirstOccurrencesProperties(routeTableIds);
    NoDuplicatesCardinality(firsts);
    assert (set id | id in firsts) == (set id | id in routeTableIds);
    CollectLength(firsts, tables);
  }

  lemma {:induction false} CollectMembership(ids: seq<string>, tables: map<string, RouteTable>, subnet: string)
    ensures subnet in Collect(ids, tables) <==>
      exists id :: id in ids && id in tables && subnet in Contribution(tables[id])
  {
    if ids != [] {
      var init := ids[..|ids| - 1];
      CollectMembership(init, tables, subnet);
      assert ids == init + [ids[|ids| - 1]];
    }
  }

  /** The candidates are exactly the first associated subnets of the public route tables. */
  lemma PublicSubnetsExactly(routeTableIds: seq<string>, tables: map<string, RouteTable>, subnet: string)
    ensures subnet in PublicSubnets(routeTableIds, tables) <==>
      exists id :: id in routeTableIds && id in tables && HasPublicRoute(tables[id].routes)
        && |tables[id].associations| > 0 && tables[id].associations[0].subnetId == subnet
  {
    FirstOccurrencesProperties(routeTableIds);
    CollectMembership(FirstOccurrences(routeTableIds), tables, subnet);
  }

  /** The candidates depend on which route tables the VPC has, not on the order
      they are listed or visited in. */
  lemma CandidatesIgnoreOrder(ids1: seq<string>, ids2: seq<string>, tables: map<string, RouteTable>)
    requires forall id :: id in ids1 <==> id in ids2
    ensures multiset(PublicSubnets(ids1, tables)) == multiset(PublicSubnets(ids2, tables))
  {
    FirstOccurrencesProperties(ids1);
    FirstOccurrencesProperties(ids2);
    SameElementsSameMultiset(FirstOccurrences(ids1), FirstOccurrences(ids2));
    CollectPermutation(FirstOccurrences(ids1), FirstOccurrences(ids2), tables);
  }

  /** Two runs of the closure on the same VPC produce the same list, whatever
      order Go's map handed the route tables out in. */
  lemma SubnetIdsDeterministic(run1: seq<string>, run2: seq<string>, candidates: seq<string>)
    requires Sorted(run1) && multiset(run1) == multiset(candidates)
    requires Sorted(run2) && multiset(run2) == multiset(candidates)
    ensures run1 == run2
  {
    SortedUnique(run1, run2);
  }

  /** A VPC whose only route table is its main one offers every subnet it has;
      when listing them fails, the one candidate is the empty id. */
  lemma FlatVpcCandidates(vpc: Vpc, tables: map<string, RouteTable>, vpcSubnets: Option<seq<string>>)
    ensures Candidates(vpc, [vpc.mainRouteTableId], tables, vpcSubnets)
      == if vpcSubnets.Some? then vpcSubnets.value else [""]
  {
  }

  /** Route table "rtb-a" routes 0.0.0.0/0 to "igw-1" and is associated with
      "subnet-b"; "rtb-b" has only a local route and is associated with
      "subnet-a". Only "subnet-b" is a candidate. */
  lemma ExampleTwoRouteTables(vpc: Vpc, tables: map<string, RouteTable>, vpcSubnets: Option<seq<string>>)
    requires "rtb-a" in tables && tables["rtb-a"] == RouteTable([Route("0.0.0.0/0", "igw-1")], [Association("subnet-b")])
    requires "rtb-b" in tables && tables["rtb-b"] == RouteTable([Route("10.0.0.0/16", "local")], [Association("subnet-a")])
    ensures Candidates(vpc, ["rtb-a", "rtb-b"], tables, vpcSubnets) == ["subnet-b"]
  {
    var ids := ["rtb-a", "rtb-b"];
    assert ids[..1] == ["rtb-a"] && ids[..1][..0] == [];
    assert "rtb-a" != "rtb-b" by { assert "rtb-a"[4] != "rtb-b"[4]; }
    assert FirstOccurrences(ids) == ids;
    assert HasPublicRoute(tables["rtb-a"].routes) by {
      assert "igw-1"[..4] == "igw-";
      assert IsInternetRoute(tables["rtb-a"].routes[0]);
    }
    assert !HasPublicRoute(tables["rtb-b"].routes) by {
      assert "10.0.0.0/16"[1] != "0.0.0.0/0"[1];
      assert !IsInternetRoute(tables["rtb-b"].routes[0]);
    }
    assert Collect(ids[..1], tables) == ["subnet-b"];
    assert PublicSubnets(ids, tables) == ["subnet-b"];
    assert AllFound(ids, tables);
  }

  /** A flat VPC with subnets "subnet-3", "subnet-1", "subnet-2" places the NAT
      instance in "subnet-1", the head of every sorted arrangement of them. */
  lemma ExampleFlatVpcChoosesLeast(sorted: seq<string>)
    requires Sorted(sorted)
    requires multiset(sorted) == multiset(["subnet-3", "subnet-1", "subnet-2"])
    ensures sorted[0] == "subnet-1"
  {
    assert |sorted| == 3 by {
      assert |multiset(sorted)| == 3;
    }
    assert "subnet-1" in multiset(sorted);
    SortedHeadLeast(sorted);
    assert sorted[0] in multiset(["subnet-3", "subnet-1", "subnet-2"]);
    assert "subnet-1" in sorted;
    assert Below("subnet-1", "subnet-2") by { assert "subnet-1"[..7] == "subnet-2"[..7]; }
    assert Below("subnet-1", "subnet-3") by { assert "subnet-1"[..7] == "subnet-3"[..7]; }
  }
}
