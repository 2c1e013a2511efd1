# Public-subnet selection of the NAT instance component

The NAT instance component places a self-managed NAT instance in one subnet of
a VPC. This project models how that subnet is chosen, and proves what the choice
means:

- A route table is **public** when one of its routes sends `0.0.0.0/0` to a
  gateway whose id starts with `igw-`.
- A VPC is **flat** when its only route table is its main route table. A flat
  VPC offers every one of its subnets as a candidate.
- Any other VPC offers, for each distinct public route table, the subnet of
  that table's first association.
- The candidates are sorted in Go's string order. The NAT instance goes into
  element 0, which is the least candidate.

The cloud lookups are inputs to the model. `tables: map<string, RouteTable>`
holds what `LookupRouteTable` returns for each id it can resolve. An id missing
from the map is a failed lookup. `vpcSubnets: Option<seq<string>>` holds what
`GetSubnets` returns for the VPC, and `None` is a failed call.

Modules:

- `StringOrder` (`string_order.dfy`): Go's `<` on strings, written out as
  `Below`. Dafny's own `<` on sequences means "proper prefix". Strings are
  sequences of Unicode scalar values. Comparing those one by one gives the same
  order as Go's byte-wise comparison of their UTF-8 encodings.
- `Sorting` (`sorting.dfy`): the in-place sort of the `subnetIds` slice, and the
  fact that a sorted arrangement of a collection is unique.
- `FckNat` (`fcknat.dfy`): `hasPublicRoute`, the `vpcHasMultipleRoutes`
  closure, `getSubnetIdsFromVpcId`, `getSubnetsFromRouteTableIds`, the
  `subnetIds` closure and `Index(0)`.

`getSubnetsFromRouteTableIds` walks a Go map, so it visits the route tables in
an unspecified order. The model picks the next key with `:|`, so its contract is
proved for every visiting order. Its result is therefore stated up to order, as
a multiset equal to the reference list `PublicSubnets`. After sorting, that
multiset determines the list completely (`SortedUnique`).

## Model

| member | source | states |
|---|---|---|
| StringOrder.BelowIrreflexive | pkg/fcknat.go:143-145 | no subnet id sorts before itself under the comparator `subnetIds[a] < subnetIds[b]` |
| StringOrder.BelowAsymmetric | pkg/fcknat.go:143-145 | if `a < b` then not `b < a` |
| StringOrder.BelowTransitive | pkg/fcknat.go:143-145 | the comparator is transitive |
| StringOrder.BelowTotal | pkg/fcknat.go:143-145 | any two different ids are ordered one way or the other, so ties occur only between equal ids |
| StringOrder.ProperPrefixBelow | pkg/fcknat.go:143-145 | a proper prefix sorts before the longer id, as in Go |
| StringOrder.AtMostTransitive | pkg/fcknat.go:143-145 | "at most" (not greater) is transitive |
| StringOrder.AtMostAntisymmetric | pkg/fcknat.go:143-145 | two ids each at most the other are equal |
| Sorting.SortStrings | pkg/fcknat.go:143-145 | after the in-place sort the slice is in ascending order and a permutation of what it held; sorting an already sorted slice leaves it unchanged |
| Sorting.SortedHeadLeast | pkg/fcknat.go:149 | element 0 of a sorted list is at most every element of it |
| Sorting.SortedUnique | pkg/fcknat.go:134-146 | two sorted lists with the same elements (as a multiset) are equal, so the second sort in the multi-route branch changes nothing and the order the candidates were gathered in does not matter |
| FckNat.IndexOfInternetRoute | pkg/fcknat.go:45-47 | `slices.IndexFunc`: -1 exactly when no route is `0.0.0.0/0` to an `igw-` gateway; otherwise the index of the first such route |
| FckNat.HasPublicRoute | pkg/fcknat.go:44-49 | true exactly when some route has CIDR `0.0.0.0/0` and a gateway id with prefix `igw-`; never true of an empty route list |
| FckNat.VpcHasMultipleRoutes | pkg/fcknat.go:119-127 | false exactly when the route-table ids are the one main route-table id; true for every other list, the empty one included |
| FckNat.GetSubnetIdsFromVpcId | pkg/fcknat.go:51-64 | the VPC's subnet ids with no error; on a failed lookup the one-element list `[""]` with the error |
| FckNat.GetSubnetsFromRouteTableIds | pkg/fcknat.go:66-92 | fails exactly when some id cannot be looked up, naming the first such id in order and returning the still empty list; panics exactly when all lookups succeed and some public table has no association; otherwise returns, in some order, exactly one subnet per distinct public route table, its first association |
| FckNat.SubnetIds | pkg/fcknat.go:129-147 | panics exactly when the multi-route branch reaches a public table without associations; otherwise returns the branch's candidates (lookup errors discarded) sorted in ascending order |
| FckNat.SelectSubnet | pkg/fcknat.go:149 | the chosen subnet is a candidate and at most every candidate; there is no subnet exactly when the candidate list is empty |
| FckNat.CollectPermutation | pkg/fcknat.go:84-89 | visiting the route tables in a permuted order permutes the collected subnets and nothing else |
| FckNat.CandidateCountBound | pkg/fcknat.go:67-89 | there are at most as many candidates as distinct route-table ids: a repeated id contributes once |
| FckNat.PublicSubnetsExactly | pkg/fcknat.go:84-89 | a subnet is a candidate exactly when it is the first association of some listed public route table |
| FckNat.CandidatesIgnoreOrder | pkg/fcknat.go:67-89 | two lists naming the same route tables yield the same candidates as a multiset |
| FckNat.SubnetIdsDeterministic | pkg/fcknat.go:143-146 | two runs over the same candidates return the same sorted list, whatever order the map was walked in |
| FckNat.FlatVpcCandidates | pkg/fcknat.go:139-142 | a VPC whose only route table is its main one offers all its subnets, or `[""]` when listing them fails |
| FckNat.ExampleTwoRouteTables | pkg/fcknat.go:84-89 | with `rtb-a` routing `0.0.0.0/0` to `igw-1` (associated with `subnet-b`) and `rtb-b` without a default route (associated with `subnet-a`), the only candidate is `subnet-b` |
| FckNat.ExampleFlatVpcChoosesLeast | pkg/fcknat.go:143-149 | sorting `subnet-3`, `subnet-1`, `subnet-2` puts `subnet-1` at index 0 |

## Left out

- The cloud lookups `ec2.LookupVpcOutput`, `ec2.GetRouteTablesOutput`, `ec2.GetSubnets` and `ec2.LookupRouteTable` are network calls; their results are inputs (`Vpc`, the route-table id list, `vpcSubnets`, `tables`), and a failed lookup is a missing map entry or `None`.
- The Pulumi output plumbing (`pulumi.All`, `ApplyT`, `StringArrayOutput`) resolves values asynchronously; the two closures are modelled as a function and a method over resolved values.
- FckNat.SelectSubnet: `Index(0)` of an empty list belongs to the Pulumi SDK, whose code is not part of this model; the model reports `NoSubnet` for that case instead of a particular value.
- FckNat.GetSubnetsFromRouteTableIds: a Go panic from `Associations[0]` is reported as the status `MissingAssociation`, and `SubnetIds` reports it as `panicked`; in Go it ends the program instead of returning.
- FckNat.GetSubnetsFromRouteTableIds: the order of the returned list is stated only as a multiset, because Go's map iteration order is unspecified.
- Sorting.SortStrings: `sort.Slice` uses pattern-defeating quicksort, the model an insertion sort; both leave the one sorted arrangement (`SortedUnique`), so only the intermediate swaps differ.
- The resource-creation sequence (security group and rules, network interface, IAM role, policy and instance profile, AMI lookup, launch template, auto-scaling group) only declares resources to the orchestration engine and has no logic of its own.
- The boot script rendering and its base64 encoding are a library call on a fixed template.
- The `SubnetId` and `Cidr` arguments are described but never read by the selection, and the argument and state structs carry no logic.
- main.go (provider registration and packaging metadata) and the generated .NET binding hold no logic.
