# rmon route monitor: the route cache and its dispatch rules

rmon listens on three rtnetlink sockets: routes, links and IPv4 addresses.
It keeps every route it sees added in a fixed-size hash table, separately
chained and keyed by (destination text, output interface index). When a link
or an address on an interface is deleted, it reports every stored route on
that interface as invalidated. It never deletes those routes itself.

This project models that core in Dafny:

- `routes.dfy` (module `Routes`) has the route record `RouteInfo` and the C
  types it is made of. Strings are NUL-free byte sequences shorter than
  `INET6_ADDRSTRLEN`. `int` and `unsigned int` are explicit 32-bit ranges.
- `hashing.dfy` (module `Hashing`) has `hash_function`. `StringHash` is the
  specification and wraps modulo 2^32 after every step. `HashFunction` is the
  loop.
- `chains.dfy` (module `Chains`) is the abstract table: one sequence of
  records per bucket, head first. It holds the placement invariant and
  the insert, remove and scan operations as functions, with their lemmas.
- `route_table.dfy` (module `RouteTable`) has the class `HashTable`. Its
  `buckets: array<seq<RouteInfo>>` is updated in place by `Insert` and
  `Remove`. `FindByIfindex` is the nested scan loop.
- `monitor.dfy` (module `Monitor`) has `route_callback`, `link_callback`
  and `addr_callback`, and `Dispatch`, which hands a message to the callback
  registered for its socket. The libnl decoding results arrive as fields of
  an `Event`.

Allocation outcomes are inputs. `Init` takes `allocOk` for the table's
allocations. `Insert` and `RouteCallback` take a flag for the node's
`malloc`. Printed lines are not modelled. The routes that `link_callback`
and `addr_callback` would print as invalidated are returned as a
`seq<RouteInfo>`, in the order they are visited.

Behaviours of the code that the model keeps, though a reader might expect otherwise:

- Keys are not unique. `hash_table_insert` never looks for an existing key,
  so duplicates are kept as separate nodes (`Chains.InsertElements`).
- A route with interface index -1 is not protected from invalidation. The
  code compares indices only. The link index is an `int`. `ifa_index` is
  a `__u32` converted to `int`, so an address message with index
  0xFFFFFFFF would report the routes with index -1 (`Monitor.AddrReportExact`).
- An invalidation report carries only the route's fields. `addr_callback`
  prints the deleted address on a separate line before the scan.
- There is no "route changed" message. Route messages other than
  RTM_NEWROUTE and RTM_DELROUTE are skipped with NL_SKIP.

## Model

| member | source | states |
|---|---|---|
| `Routes.ToInt32` | rmon.c:166 | a `uint32` priority stored in the `int` metric keeps its value modulo 2^32, and is unchanged exactly when it is below 2^31 |
| `Hashing.CharValue` | rmon.c:48 | a byte read through a signed `char` lies in -128..127 and is the same byte modulo 256 |
| `Hashing.StringHash` | rmon.c:45-48 | the accumulated string hash always fits in an `unsigned int` |
| `Hashing.StringHashIsPolynomial` | rmon.c:45-48 | wrapping after every step equals the exact base-31 polynomial of the string reduced modulo 2^32 |
| `Hashing.Hash` | rmon.c:43-52 | the bucket index is strictly below the table size |
| `Hashing.HashIsPolynomial` | rmon.c:43-52 | the index is (polynomial hash + ifindex as unsigned) mod 2^32, reduced by the size; it depends on the full string and the ifindex only |
| `Hashing.LastByteChangesStringHash` | rmon.c:47-48 | two strings differing only in their last byte get different string hashes, so the loop reads up to the final byte |
| `Hashing.HashFunction` | rmon.c:43-52 | the byte loop followed by the ifindex addition and the reduction computes exactly `Hash` |
| `Chains.Empty` | rmon.c:35 | a freshly allocated table has `size` buckets, satisfies the placement invariant and stores nothing |
| `Chains.InsertPlaced` | rmon.c:56-62 | prepending a record to the bucket its key hashes to keeps every record in its own bucket |
| `Chains.InsertElements` | rmon.c:54-63 | insert adds exactly one record, and an existing record with the same key is kept, so its count grows by one |
| `Chains.FirstKeyIndex` | rmon.c:71-83 | the position the walk stops at is the first node whose destination and ifindex both match, or the chain length if none matches |
| `Chains.RemoveFirstSplice` | rmon.c:71-83 | unlinking during the walk removes the first matching node and keeps the other nodes in order; with no match the chain is unchanged |
| `Chains.RemovePlaced` | rmon.c:65-84 | remove keeps every record in the bucket its key hashes to |
| `Chains.RemoveElements` | rmon.c:65-84 | remove either finds no match and leaves the table identical, or takes out exactly one record that carries the key |
| `Chains.RemoveFindsStoredKey` | rmon.c:67-73 | in a table with the placement invariant, searching only the key's bucket finds a record exactly when some stored record has the key |
| `Chains.InsertThenRemove` | rmon.c:54-84 | removing the key of a record just inserted restores the table exactly, chain order included |
| `Chains.FilterCounts` | rmon.c:90-95 | the walk of one chain visits each node whose ifindex matches, once per node, and no other node |
| `Chains.MatchingIsFilteredFlatten` | rmon.c:88-96 | the scan visits records in bucket order 0..size-1 and head to tail within a chain |
| `Chains.MatchingCounts` | rmon.c:86-97 | the scan visits exactly the stored records with the ifindex, each as many times as it is stored |
| `RouteTable.HashTable.constructor` | rmon.c:34-35 | the new table has `size` empty buckets and satisfies the table invariant |
| `RouteTable.HashTable.Init` | rmon.c:27-41 | on allocation failure the result is NULL; otherwise it is a fresh empty table of `size` buckets |
| `RouteTable.HashTable.Insert` | rmon.c:54-63 | the target chain becomes the record followed by the old chain, other buckets are untouched, and the contents grow by that record; a failed allocation changes nothing |
| `RouteTable.HashTable.Remove` | rmon.c:65-84 | the key's chain loses its first matching node and the rest is untouched; when nothing matches the table is identical; the invariant is kept |
| `RouteTable.HashTable.FindByIfindex` | rmon.c:86-97 | the nested loops visit exactly `Matching(table, ifindex)` in order, and the table is read only |
| `Monitor.RouteRecordFields` | rmon.c:130-175 | the stored record takes the parsed destination or "unknown", the first next hop's ifindex or -1, its gateway or "none", and the priority as metric |
| `Monitor.RouteStepPlaced` | rmon.c:168-183 | every route message keeps the placement invariant |
| `Monitor.RouteStepContents` | rmon.c:137-183 | NEWROUTE adds one copy of the parsed record; DELROUTE removes one record with the parsed key, or nothing if none is stored; other types and allocation or parse failures leave the table unchanged |
| `Monitor.NewThenDeleteRestores` | rmon.c:168-183 | a DELROUTE for the route a NEWROUTE just stored restores the table exactly |
| `Monitor.LinkReportExact` | rmon.c:196-213 | DELLINK reports exactly the stored records on the link's index, with their multiplicity; NEWLINK and other types report nothing |
| `Monitor.AddrReportExact` | rmon.c:228-258 | DELADDR reports exactly the records on the interface, but only when an IFA_LOCAL or IFA_ADDRESS address was found; other types report nothing |
| `Monitor.NewRouteThenLinkDown` | rmon.c:168-212 | a route stored by NEWROUTE is reported when its interface is deleted next |
| `Monitor.RouteCallback` | rmon.c:124-187 | returns NL_SKIP for non-route types and NL_OK otherwise, and leaves the table as `RouteStep` of the old table |
| `Monitor.LinkCallback` | rmon.c:189-216 | returns NL_SKIP for non-link types and NL_OK otherwise; reports `LinkReport` and changes nothing |
| `Monitor.AddrCallback` | rmon.c:218-261 | returns NL_SKIP for anything but DELADDR and NL_OK otherwise; reports `AddrReport` and changes nothing |
| `Monitor.Dispatch` | rmon.c:334-336 | a message goes to the callback of its socket; only route messages change the table, and only link and address messages report routes |

## Left out

- `hash_table_free` (rmon.c:99-116) is left out. It only releases memory, and Dafny has no deallocation.
- `main` (rmon.c:265-382) is left out. It allocates and connects the sockets, joins the groups and runs the `select` loop, which is I/O plumbing.
- libnl decoding is taken as input: `rtnl_route_parse`, the next-hop and gateway getters, `nl_addr2str`, `nl_addr_build` and the `RTA_OK`/`RTA_NEXT` attribute walk. Their results are the fields of `Monitor.Event`.
- All `printf`/`fprintf` output is left out. Reports are returned as sequences of records.
- The linked nodes are not modelled. A chain is a sequence, so `prev->next` relinking becomes a sequence splice, and node aliasing and `free` are not captured.
- The `strncpy` truncation is not modelled. Destination and gateway texts are typed to fit the 46-byte buffers, which `nl_addr2str` already guarantees, so the copy never truncates.
- A table of size 0 is excluded by a precondition. `hash_function` would divide by zero, and the program only uses 128 buckets.
- Only a signed `char` is modelled (the x86 Linux ABI). On unsigned-`char` targets, bytes of 128 and above hash differently. Address texts are ASCII, so it makes no difference for them.
- Concurrency is not modelled. The program is single-threaded.
