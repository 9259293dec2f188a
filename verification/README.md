# Verified model of the NSM plugin

The NSM plugin lets a Ligato agent offer and use network services of the Network Service Mesh (NSM). This
project models its stateful core and proves what the core keeps over all runs:

- **The endpoint** (`Endpoint.dfy`, `NsmEndpoint.dfy`). An endpoint keeps a table of client connections, gives
  each an interface name (prefix + least unused index, or prefix + value of a label), disconnects and reconnects
  a client that asks again, and mirrors the table into an interface store by queued update/delete transactions.
- **The agent** (`AgentState.dfy`, `Answers.dfy`, `Demux.dfy`, `EndpointDescriptor.dfy`). A demultiplexer routes
  requests to the endpoints, registers them with the NSM registry, and a descriptor publishes notifications about them. All
  operations run under one lock, so a run is a sequence of atomic steps. Whatever the program does not control (a
  failing connection setup, a refusing registry, a missing memif directory, a failing publisher, the order of
  ranging over a map) is part of the step, and the theorems hold for every choice.
- **Agreement** (`Agreement.dfy`, `AgreementSteps.dfy`, `Separation.dfy`, `IndexMode.dfy`, `Collisions.dfy`,
  `LabelMode.dfy`, `Registry.dfy`, `Announcements.dfy`, `Scheduler.dfy`, `Capstone.dfy`, `Peak.dfy`,
  `Witnesses.dfy`). When the store, the registry and the published keys agree with the connection tables. Agreement
  with the store does not hold in all runs; `AgreementLaw` says exactly in which it does, and the modules after it
  turn that into conditions on prefixes (index mode) and on labels (label mode). `Witnesses.dfy` has runs that fail.
- **Client handles** (`Clients.dfy`, `ClientDescriptor.dfy`). Which SDK handles are open after any run of client
  creations and deletions.
- **Dummy subnets** (`Subnet.dfy`). When two names can get the same subnet from truncated 32-bit FNV-1a.
- **Text codecs** (`Text.dfy`, `NotificationKeys.dfy`, `Labels.dfy`, `Names.dfy`, `Decimal.dfy`). Notification
  keys, label lists and interface names, with exact round-trip conditions.

Specifications are functions on values; the objects of the source are classes whose methods are proved equal to
those functions (`State()`/`Abs()` give the value an object stands for), and the theorems over runs are lemmas
about the functions. The interface store is keyed by backend and name, because a Linux and a VPP interface of one
name are different configuration items; `Drained()` is the store once all queued transactions are applied in order.

Findings about the code:

- `ParseEndpointNotificationKey` (`proto/nsm/keys.go:97-113`) does not do what its comment says. It splits the
  whole key instead of the suffix, so it rejects every string, and it takes the service name from the wrong part.
  `NotificationKeys.Parse` follows the code, `NotificationKeys.ParseDocumented` the comment.
- A key is printed by three replacements in sequence, so a service name or label key that contains a later
  placeholder swallows it. `KeyRoundTrip` gives the exact condition; a service named "{label-key}" trades places
  with its label key (`NotificationKeys.SwallowedPlaceholder`).
- A comment calls collisions of dummy subnets unlikely. Names of equal length that differ in exactly one byte
  never collide; the clients "t7" and "a8p" do (`Subnet.OneByteApart`, `Subnet.CollisionsExist`).
- A reconnect over memif is not failure-atomic: the client is disconnected first, and if the socket directory
  then cannot be made it stays disconnected (`Endpoint.RequestFailureAtomic`, `Endpoint.RepeatedRequestIsIdempotent`;
  a run in `Witnesses.ReconnectLosesClient`).
- The descriptor reports every deletion as done. An endpoint whose deletion was hindered is never deleted again: it
  stays routable and registered until its service is created anew (`Scheduler.ForgottenEndpointStays`).
- Registering a service that is still in the table (which happens after just such a deletion) drops the old entry;
  its interfaces and its registration stay behind (`AgreementSteps.AddKeepsAgreementIff`,
  `Registry.StepKeepsRegisteredRoutableIff`; runs in `Witnesses.RecreationLeavesStale` and
  `Witnesses.RecreationOrphansInterface`).

## Model

| member | source | states |
|---|---|---|
| Endpoint.AllocatedIndex | plugins/nsmplugin/descriptor/nsm_endpoint.go:559-574 | the allocated index is unused, every smaller one is used, and it is at most the number of connections (pigeonhole) |
| Endpoint.FreeIndexUnique | plugins/nsmplugin/descriptor/nsm_endpoint.go:559-565 | any index that is unused with all smaller ones used is the allocated one |
| NsmEndpoint.NSMEndpoint.UsesConnectionIndex | plugins/nsmplugin/descriptor/nsm_endpoint.go:567-574 | the search answers yes exactly if some connection holds the index |
| NsmEndpoint.NSMEndpoint.AllocateConnectionIndex | plugins/nsmplugin/descriptor/nsm_endpoint.go:559-565 | the search loop ends on every table, at the least unused index |
| NsmEndpoint.NSMEndpoint.GetConnectionIndex | plugins/nsmplugin/descriptor/nsm_endpoint.go:549-557 | a connected client keeps its index, another gets the least unused one |
| NsmEndpoint.NSMEndpoint.BuildInterfaceConfig | plugins/nsmplugin/descriptor/nsm_endpoint.go:481-547 | name, backend, addresses and index of the interface, or the first error met, as specified |
| Endpoint.BuildRenders | plugins/nsmplugin/descriptor/nsm_endpoint.go:481-547 | a built interface is a VPP one without host name exactly for memif and else a Linux one with the host name of the mechanism; it has the configured addresses exactly for a single client; its name is prefix + index or prefix + label, with the index held or least free |
| Endpoint.RenderedExactly | plugins/nsmplugin/descriptor/nsm_endpoint.go:501-543 | these parts determine the interface |
| NsmEndpoint.NSMEndpoint.CloseConnection | plugins/nsmplugin/descriptor/nsm_endpoint.go:459-473 | the new table, drained store and error are those of the value-level close |
| NsmEndpoint.NSMEndpoint.Close | plugins/nsmplugin/descriptor/nsm_endpoint.go:437-446 | closing an endpoint connection is closing the connection |
| NsmEndpoint.NSMEndpoint.Request | plugins/nsmplugin/descriptor/nsm_endpoint.go:400-434 | the new table, drained store and error are those of the value-level request |
| NsmEndpoint.NSMEndpoint.CloseConnections | plugins/nsmplugin/descriptor/nsm_endpoint.go:449-457 | ranging over the map while deleting from it visits each connection once in some order, and acts as closing in that order until the first error |
| NsmEndpoint.NSMEndpoint.constructor | plugins/nsmplugin/descriptor/nsm_endpoint.go:144-153 | a new endpoint has its configuration, its client and no connections |
| NsmEndpoint.ConfigClient.Send | plugins/nsmplugin/descriptor/nsm_endpoint.go:428-428 | a transaction takes effect on the store after all earlier ones |
| NsmEndpoint.ConfigClient.Process | plugins/nsmplugin/descriptor/nsm_endpoint.go:466-468 | applying the oldest queued transaction does not change what the store is heading for |
| Endpoint.RequestOutcome | plugins/nsmplugin/descriptor/nsm_endpoint.go:400-434 | exactly when a request succeeds, and that it then leaves the client connected under the least index free of the others, the others untouched |
| Endpoint.RequestStore | plugins/nsmplugin/descriptor/nsm_endpoint.go:400-434 | a successful request writes one interface, after deleting the one computed for a client that was connected |
| Endpoint.FailedRequest | plugins/nsmplugin/descriptor/nsm_endpoint.go:400-434 | a failed request leaves everything, or what the disconnect left |
| Endpoint.RequestFailureAtomic | plugins/nsmplugin/descriptor/nsm_endpoint.go:400-434 | a failing request changes anything only for a memif reconnect whose directory vanishes between disconnect and connect, and then it does |
| Endpoint.ReconnectIsNoSecondClient | plugins/nsmplugin/descriptor/nsm_endpoint.go:403-415 | a single-client endpoint never refuses its own client as a second one |
| Endpoint.ReconnectNeverRaisesIndex | plugins/nsmplugin/descriptor/nsm_endpoint.go:403-428 | a successful reconnect gets an index no greater than the one held |
| Endpoint.RepeatedRequestIsIdempotent | plugins/nsmplugin/descriptor/nsm_endpoint.go:403-428 | repeating a successful request leaves table and store as they are, whatever fails, if and only if it is not a memif request whose directory is there for the disconnect and not for the connect |
| Endpoint.RepeatedSuccess | plugins/nsmplugin/descriptor/nsm_endpoint.go:403-428 | in particular a successful repetition never changes anything |
| Endpoint.CloseStored | plugins/nsmplugin/descriptor/nsm_endpoint.go:449-473 | closing a stored connection deletes its own interface in either naming mode |
| Endpoint.CloseAllSucceeds | plugins/nsmplugin/descriptor/nsm_endpoint.go:449-457 | in every iteration order success empties the table, deletes exactly its interfaces and touches nothing else |
| Endpoint.CloseAllFailsOnlyForMemif | plugins/nsmplugin/descriptor/nsm_endpoint.go:449-473 | closing everything fails exactly when a memif connection meets an unusable directory, so never for kernel interfaces |
| Endpoint.CloseAllStops | plugins/nsmplugin/descriptor/nsm_endpoint.go:449-473 | where closing everything fails, the connections before the first unusable directory and their interfaces are gone, nothing else, and the error is that of this directory |
| Endpoint.CloseConnectionKeepsInv | plugins/nsmplugin/descriptor/nsm_endpoint.go:459-473 | closing keeps distinct indices, closable connections and the single-client bound |
| Endpoint.OpenKeepsInv | plugins/nsmplugin/descriptor/nsm_endpoint.go:413-428 | opening keeps them |
| Endpoint.RequestKeepsInv | plugins/nsmplugin/descriptor/nsm_endpoint.go:400-434 | a request keeps them, whatever fails |
| Endpoint.CloseAllKeepsInv | plugins/nsmplugin/descriptor/nsm_endpoint.go:449-457 | closing everything keeps them, wherever it stops |
| Names.CollisionLaw | plugins/nsmplugin/descriptor/nsm_endpoint.go:486-498 | two prefixes share a name at some indices exactly if they are equal or one is the other followed by digits not beginning with zero |
| Names.IndexFromName | plugins/nsmplugin/descriptor/nsm_endpoint.go:486-498 | within one prefix different indices give different names |
| Decimal.AtoiItoa | plugins/nsmplugin/descriptor/nsm_endpoint.go:497-497 | reading a printed index gives it back |
| Decimal.ItoaAtoi | plugins/nsmplugin/descriptor/nsm_endpoint.go:497-497 | every numeral without leading zero is printed by some index |
| AgentState.RunKeepsInv | plugins/nsmplugin/descriptor/nsm_endpoint.go:241-434 | in every reachable state single-client endpoints have at most one connection, live indices are distinct, every connection can be closed, and an endpoint in the table implies a registry client |
| Answers.RefusedExactly | plugins/nsmplugin/descriptor/nsm_endpoint.go:481-547 | each reason for which an interface cannot be built, exactly when; a missing label comes first |
| Answers.RequestSucceedsIff | plugins/nsmplugin/descriptor/nsm_endpoint.go:364-434 | a routed request is answered with success exactly if the service is in the table, label and type are fine, the memif directory is there for what is done, and no other client occupies a single-client endpoint |
| Answers.RequestErrors | plugins/nsmplugin/descriptor/nsm_endpoint.go:364-434 | for every error, exactly when a routed request is answered with it |
| Answers.CloseSucceedsIff | plugins/nsmplugin/descriptor/nsm_endpoint.go:383-473 | exactly when a routed close succeeds; then the connection is gone, else nothing has changed |
| Answers.CloseErrors | plugins/nsmplugin/descriptor/nsm_endpoint.go:383-473 | for every error, exactly when a routed close is answered with it |
| Answers.CreateAnswer | plugins/nsmplugin/descriptor/nsm_endpoint.go:175-324 | a creation fails exactly if the setup fails or the registry refuses, each with its own error, and then at most connects the agent; else the service is routable, registered and configured |
| Answers.DeleteStops | plugins/nsmplugin/descriptor/nsm_endpoint.go:327-457 | a deletion that meets an unusable directory answers so, asks no registry, and has closed exactly the connections before |
| Answers.DeleteAnswer | plugins/nsmplugin/descriptor/nsm_endpoint.go:327-361 | any other deletion fails exactly for an unknown service or a refusing registry, each with its own error |
| Agreement.DropKeeps | plugins/nsmplugin/descriptor/nsm_endpoint.go:466-471 | dropping a connection with its own interface, or an unknown one with a name of nobody, keeps agreement |
| Agreement.DropBreaks | plugins/nsmplugin/descriptor/nsm_endpoint.go:466-471 | any other deletion breaks it |
| Agreement.PutIff | plugins/nsmplugin/descriptor/nsm_endpoint.go:423-428 | entering a connection keeps agreement exactly if its name is new |
| Agreement.AgreeingStoreIsExact | plugins/nsmplugin/descriptor/nsm_endpoint.go:481-547 | when store and tables agree, the interfaces in the store are exactly those rendered from live connections, in all their parts |
| AgreementSteps.CloseKeepsAgreementIff | plugins/nsmplugin/descriptor/nsm_endpoint.go:383-397 | a routed close keeps store and tables in agreement exactly if it deletes the client's own interface, or one of nobody |
| AgreementSteps.RequestKeepsAgreementIff | plugins/nsmplugin/descriptor/nsm_endpoint.go:364-434 | a routed request keeps agreement exactly if a reconnecting client asks under its own name and the new name is no other client's |
| AgreementSteps.DeleteKeepsAgreement | plugins/nsmplugin/descriptor/nsm_endpoint.go:327-361 | deleting an endpoint always keeps agreement, wherever it fails |
| AgreementSteps.AddKeepsAgreementIff | plugins/nsmplugin/descriptor/nsm_endpoint.go:308-318 | adding an endpoint keeps agreement exactly if it replaces no live connections |
| AgreementSteps.StepKeepsAgreementIff | plugins/nsmplugin/descriptor/nsm_endpoint.go:174-473 | from agreement any step leads to agreement exactly if it respects the names in use |
| AgreementSteps.AgreementLaw | plugins/nsmplugin/descriptor/nsm_endpoint.go:174-473 | over every run, in both naming modes and with any failures, store and tables agree at every moment exactly if every step respects the names in use |
| IndexMode.IndexModeAgreement | plugins/nsmplugin/descriptor/nsm_endpoint.go:327-473 | after any run over index-mode endpoints with non-colliding prefixes the store holds exactly one interface, prefix + index, per live connection, with backend, host name and addresses by type and configuration |
| Separation.KeysDiffer | plugins/nsmplugin/descriptor/nsm_endpoint.go:486-498 | separated endpoints of either mode never compute the same interface; a single-client endpoint is not in the way of a longer prefix |
| Separation.RequestNamesAreFresh | plugins/nsmplugin/descriptor/nsm_endpoint.go:486-574 | a request to an index-mode endpoint never computes a name in use elsewhere |
| Separation.CloseNamesAreOwn | plugins/nsmplugin/descriptor/nsm_endpoint.go:459-498 | a close routed to an index-mode endpoint deletes the interface of the connection, or one of nobody |
| Separation.CloseUnknownIsNoOp | plugins/nsmplugin/descriptor/nsm_endpoint.go:459-473 | closing a connection that an index-mode endpoint does not know deletes a freshly computed name and thereby changes nothing, whatever the other endpoints are |
| Separation.RequestIsIsolated | plugins/nsmplugin/descriptor/nsm_endpoint.go:364-380 | a request, in either mode and with any outcome, touches neither entries nor interfaces of other services |
| Separation.CloseIsIsolated | plugins/nsmplugin/descriptor/nsm_endpoint.go:383-397 | nor does a close, known or unknown |
| Collisions.MeetingBreaks | plugins/nsmplugin/descriptor/nsm_endpoint.go:486-498 | if names of two endpoints meet at indices i and j that they can reach, letting i+1 and j+1 clients connect breaks agreement |
| Collisions.SafeTogetherIffApart | plugins/nsmplugin/descriptor/nsm_endpoint.go:327-498 | two index-mode endpoints, each single-client or not, agree with the store in all runs if and only if their backends differ, or their prefixes differ and a prefix that the other one continues by digits (not beginning with zero) belongs to a single-client endpoint |
| LabelMode.NamesAreLabels | plugins/nsmplugin/descriptor/nsm_endpoint.go:487-498 | among separated endpoints of both modes respecting names means that clients of label-mode endpoints keep constant and pairwise distinct label values |
| LabelMode.MixedModeAgreement | plugins/nsmplugin/descriptor/nsm_endpoint.go:327-498 | over every run of pairwise separated endpoints of both modes store and tables agree at every moment if and only if labels are kept so; the store is then exactly the interfaces of the live connections, named prefix + index or prefix + label, with backend, host name and addresses by type and configuration |
| LabelMode.LabelModeAgreement | plugins/nsmplugin/descriptor/nsm_endpoint.go:403-494 | in particular for a single label-mode endpoint |
| LabelMode.LabelsMustBeDistinctAndConstant | plugins/nsmplugin/descriptor/nsm_endpoint.go:459-494 | possible runs that break agreement: a second client with the same label, a reconnect and a close under a changed label |
| Peak.IndexBelowPeak | plugins/nsmplugin/descriptor/nsm_endpoint.go:400-434 | after any run every index held is below the largest number of simultaneous connections so far |
| Peak.HighestIsBound | plugins/nsmplugin/descriptor/nsm_endpoint.go:400-434 | that number is at least the number of connections at every moment |
| Peak.HighestIsAttained | plugins/nsmplugin/descriptor/nsm_endpoint.go:400-434 | and it was reached at some moment |
| Registry.ConnectedOnce | plugins/nsmplugin/descriptor/nsm_endpoint.go:247-287 | after any run the agent is connected exactly if some creation was able to set it up, even if its registration then failed |
| Registry.RunKeepsRoutableRegistered | plugins/nsmplugin/descriptor/nsm_endpoint.go:241-361 | after every run each endpoint in the table is registered under its name |
| Registry.StepKeepsRegisteredRoutableIff | plugins/nsmplugin/descriptor/nsm_endpoint.go:308-318 | a step leaves a stale registration exactly if it registers a service that is still in the table |
| Registry.RegistryLaw | plugins/nsmplugin/descriptor/nsm_endpoint.go:241-361 | over every run nothing stale is ever registered exactly if that never happens |
| Registry.FailedRemovalIsRetryable | plugins/nsmplugin/descriptor/nsm_endpoint.go:338-358 | a refused removal leaves the endpoint registered, routable and without connections, and a second attempt removes it |
| Registry.LaterRemoval | plugins/nsmplugin/descriptor/nsm_endpoint.go:327-361 | whatever happens after a failed deletion, short of another registration, the endpoint stays routable and registered, and the first unhindered deletion removes entry and registration |
| Registry.DeleteEndpointOutcome | plugins/nsmplugin/descriptor/nsm_endpoint.go:327-361 | a deletion fails exactly if the registry refuses or a memif directory is missing, and otherwise the endpoint is gone |
| Demux.NSMEndpointDemux.constructor | plugins/nsmplugin/descriptor/nsm_endpoint.go:156-161 | a new demultiplexer is in the initial state |
| Demux.NSMEndpointDemux.AddEndpoint | plugins/nsmplugin/descriptor/nsm_endpoint.go:241-324 | lazy setup, registration and entry into the table are the corresponding step, with every failure exit, and never use a missing registry client |
| Demux.NSMEndpointDemux.DeleteEndpoint | plugins/nsmplugin/descriptor/nsm_endpoint.go:327-361 | closing, unregistering and removing are the corresponding step for the order in which connections were closed |
| Demux.NSMEndpointDemux.Request | plugins/nsmplugin/descriptor/nsm_endpoint.go:364-380 | routing a request to one of many endpoint objects is the corresponding step of the whole agent |
| Demux.NSMEndpointDemux.Close | plugins/nsmplugin/descriptor/nsm_endpoint.go:383-397 | likewise for routing a close |
| EndpointDescriptor.NSMEndpointDescriptor.Create | plugins/nsmplugin/descriptor/nsm_endpoint.go:175-218 | adding an endpoint and announcing its labels is the corresponding step, with or without a publisher |
| EndpointDescriptor.NSMEndpointDescriptor.Delete | plugins/nsmplugin/descriptor/nsm_endpoint.go:221-238 | deleting it and withdrawing its announcements even after a failure is the corresponding step |
| EndpointDescriptor.NSMEndpointDescriptor.Announce | plugins/nsmplugin/descriptor/nsm_endpoint.go:208-216 | exactly the notifications of the endpoint that the publisher accepts are added |
| EndpointDescriptor.NSMEndpointDescriptor.Withdraw | plugins/nsmplugin/descriptor/nsm_endpoint.go:228-236 | exactly those that the publisher deletes are removed |
| Scheduler.RunKeepsConfiguredPresent | plugins/nsmplugin/descriptor/nsm_endpoint.go:175-238 | a configured service is always found in the table when it is deleted |
| Scheduler.TableLaw | plugins/nsmplugin/descriptor/nsm_endpoint.go:175-361 | at every moment of a scheduled run a service is in the table if and only if it is configured or its last deletion was hindered |
| Scheduler.TableIsConfigured | plugins/nsmplugin/descriptor/nsm_endpoint.go:175-361 | in particular, if no deletion is hindered the table holds exactly the configured services |
| Scheduler.ReregistersIffRevives | plugins/nsmplugin/descriptor/nsm_endpoint.go:175-238 | under a scheduler a service still in the table is registered exactly when its last deletion was hindered |
| Scheduler.ForgottenEndpointStays | plugins/nsmplugin/descriptor/nsm_endpoint.go:221-238 | an endpoint whose deletion was hindered stays routable and registered, without being configured, until its service is registered anew |
| Announcements.KeysOfDifferentServices | proto/nsm/keys.go:78-93 | different services with well-behaved labels have no notification key in common |
| Announcements.SlashesShareKeys | proto/nsm/keys.go:78-93 | a slash in a label key lets two services share a notification key |
| Announcements.NotificationsTold | proto/nsm/keys.go:78-113 | for well-behaved labels the notifications of an endpoint are exactly the keys that are read back as its service and one of its labels, key and value in place |
| Announcements.CreationTold | plugins/nsmplugin/descriptor/nsm_endpoint.go:206-216 | a creation publishes exactly the keys read back as labels whose publication succeeds, if it gets through, else none |
| Announcements.DeletionTold | plugins/nsmplugin/descriptor/nsm_endpoint.go:221-237 | a deletion withdraws exactly the keys of labels whose withdrawal succeeds, even if the endpoint stays |
| Announcements.StepKeepsPublishedIff | plugins/nsmplugin/descriptor/nsm_endpoint.go:207-237 | a step keeps the published keys exact if and only if it withdraws no key that another configured service offers |
| Announcements.NotificationLaw | plugins/nsmplugin/descriptor/nsm_endpoint.go:207-237 | the same over every scheduled run |
| Announcements.PublishedAreConfigured | plugins/nsmplugin/descriptor/nsm_endpoint.go:207-237 | for well-behaved labels the published keys are those of the services created and not yet deleted, even if the demultiplexer failed to delete an endpoint, and each is read back as such a service with one of its labels |
| Capstone.EverythingAgrees | plugins/nsmplugin/descriptor/nsm_endpoint.go:174-473 | for compatible endpoints of both modes in every scheduled run: routable endpoints are registered, the table follows the trace law, the published keys are exact; and store and registry are exact at every moment if and only if no service is registered whose last deletion was hindered and clients keep their labels |
| Capstone.IndexModeNeedsNoCare | plugins/nsmplugin/descriptor/nsm_endpoint.go:486-498 | with index-mode endpoints only, nothing is asked of clients |
| Witnesses.RecreationLeavesStale | plugins/nsmplugin/descriptor/nsm_endpoint.go:221-318 | for every endpoint a scheduled run (creation, refused deletion, creation) that leaves a stale registration |
| Witnesses.RecreationOrphansInterface | plugins/nsmplugin/descriptor/nsm_endpoint.go:221-318 | for every endpoint and accepted client a scheduled run (creation, refused deletion, request, creation) that agrees before its last step and not after |
| Witnesses.ReconnectLosesClient | plugins/nsmplugin/descriptor/nsm_endpoint.go:403-434 | for every memif endpoint a scheduled run in which a connected client asks again and loses its connection |
| NotificationKeys.ParseRejectsEverything | proto/nsm/keys.go:97-113 | the parser as written rejects every string |
| NotificationKeys.ParseDocumentedExact | proto/nsm/keys.go:95-113 | the documented parser reads fields from a key exactly if the key lays them out and the label has no slash |
| NotificationKeys.NameFromThirdPartIsWrong | proto/nsm/keys.go:109-109 | a name taken from the third part on is never the service name |
| NotificationKeys.KeyIsLayout | proto/nsm/keys.go:78-93 | what the three replacements print, including fields that contain placeholders |
| NotificationKeys.LayoutText | proto/nsm/keys.go:54-62 | a laid-out key is notification/nsm/endpoint/service/, the service, /label/, the label key, a slash and the label value |
| NotificationKeys.EmptyFieldsShown | proto/nsm/keys.go:79-87 | an empty field is printed as invalid |
| NotificationKeys.PlacedFaithful | proto/nsm/keys.go:89-91 | the fields end up in their places exactly if none swallows a later placeholder |
| NotificationKeys.KeyRoundTrip | proto/nsm/keys.go:78-113 | for all fields, the documented parser recovers what was printed if and only if the fields are non-empty, the label has no slash and no placeholder is swallowed |
| NotificationKeys.SwallowedPlaceholder | proto/nsm/keys.go:78-93 | a service named like the label-key placeholder is read back under the name of the label key |
| NotificationKeys.SwallowedPlaceholderExample | proto/nsm/keys.go:78-93 | for example for label "app" with value "nat" |
| NotificationKeys.SwallowedValueExample | proto/nsm/keys.go:78-93 | likewise for a service named like the placeholder of the value |
| NotificationKeys.ReprintAccepted | proto/nsm/keys.go:78-113 | an accepted key with such fields is printed again from them |
| Text.ReplaceFirstAt | proto/nsm/keys.go:89-91 | replacing once acts on the first occurrence |
| Text.JoinSplit | proto/nsm/keys.go:102-109 | joining the pieces of a text gives the text |
| Text.SplitJoin | proto/nsm/keys.go:102-109 | splitting joined separator-free pieces gives the pieces |
| Labels.LabelsFromProto | plugins/nsmplugin/descriptor/nsm_client.go:248-257 | the loop computes the pairs joined by commas |
| Labels.SerializedText | plugins/nsmplugin/descriptor/nsm_client.go:248-257 | a label is printed as key, "=", value, and lists are joined by "," |
| Labels.SerializedNonEmpty | plugins/nsmplugin/descriptor/nsm_client.go:251-253 | the emptiness test of the loop recognises the first label |
| Labels.LabelRoundTrip | plugins/nsmplugin/descriptor/nsm_client.go:248-257 | the labels are recovered from the text if and only if there are some and none contains "," or "=" |
| Labels.SerializedInjective | plugins/nsmplugin/descriptor/nsm_client.go:248-257 | different such lists have different texts |
| Labels.UncleanValueSplits | plugins/nsmplugin/descriptor/nsm_client.go:248-257 | a value with a comma makes one label look like two |
| Labels.MapHoldsLabels | plugins/nsmplugin/descriptor/nsm_endpoint.go:297-297 | if no key has two values the map of labels holds exactly the labels |
| Labels.MapRoundTrip | plugins/nsmplugin/descriptor/nsm_endpoint.go:297-297 | from labels to text to labels to map: the map holds exactly the labels if and only if there are some, none contains a separator and no key has two values |
| Subnet.GenerateDummySubnet | plugins/nsmplugin/descriptor/nsm_endpoint.go:576-581 | the byte-wise hash loop computes the specified subnet |
| Subnet.SubnetText | plugins/nsmplugin/descriptor/nsm_endpoint.go:576-581 | the printed text has the octets 0, low half and high half of the 16-bit state, 0/24, in this order |
| Subnet.SubnetExample | plugins/nsmplugin/descriptor/nsm_endpoint.go:576-581 | the client "t7" gets 0.144.239.0/24 |
| Subnet.SubnetsEqualOrDisjoint | plugins/nsmplugin/descriptor/nsm_client.go:112-115 | two subnets, as their printed texts are read, are equal or share no address, and all lie in 0.0.0.0/8 |
| Subnet.LowIsShortHash | plugins/nsmplugin/descriptor/nsm_endpoint.go:576-581 | the low half of the hash is computed by a 16-bit automaton |
| Subnet.SubnetIsShortHash | plugins/nsmplugin/descriptor/nsm_endpoint.go:576-581 | two names share a subnet exactly if they lead to the same 16-bit state |
| Subnet.CommonSuffix | plugins/nsmplugin/descriptor/nsm_endpoint.go:576-581 | appending the same bytes to two names preserves collision and non-collision |
| Subnet.OneByteApart | plugins/nsmplugin/descriptor/nsm_endpoint.go:576-581 | names of equal length that differ in exactly one byte get disjoint subnets |
| Subnet.CollisionsExist | plugins/nsmplugin/descriptor/nsm_client.go:112-115 | two client names that share a subnet, with any common ending |
| Clients.CreateOutcome | plugins/nsmplugin/descriptor/nsm_client.go:105-152 | a creation succeeds exactly if the SDK answers and the type is kernel, default, or memif with a known base directory; then it returns two fresh handles, else it leaves no handle open exactly if its cleanup works |
| Clients.CreateLeftovers | plugins/nsmplugin/descriptor/nsm_client.go:117-139 | a failed creation leaves a client exactly if destroying it fails and a connection exactly if closing it fails |
| Clients.DeleteOutcome | plugins/nsmplugin/descriptor/nsm_client.go:155-183 | a deletion succeeds exactly if the interface can be built, closing and destroying work; it closes before it destroys and releases nothing after a failure |
| Clients.CreateConserves | plugins/nsmplugin/descriptor/nsm_client.go:117-139 | a creation keeps the books of open handles exact if and only if its cleanup works |
| Clients.DeleteConserves | plugins/nsmplugin/descriptor/nsm_client.go:155-183 | a deletion, first or repeated, keeps them exact, wherever it returns |
| Clients.HandleConservation | plugins/nsmplugin/descriptor/nsm_client.go:105-183 | over every run, with any retries, the open handles are those of metadata not yet deleted, less the connections a deletion has closed, if and only if every failed creation's cleanup works |
| Clients.NothingLeaks | plugins/nsmplugin/descriptor/nsm_client.go:105-183 | once everything is deleted nothing is open |
| ClientDescriptor.NSMClientDescriptor.Create | plugins/nsmplugin/descriptor/nsm_client.go:105-152 | acquiring, and releasing on failure, step by step, is the specified creation |
| ClientDescriptor.NSMClientDescriptor.Delete | plugins/nsmplugin/descriptor/nsm_client.go:155-183 | releasing step by step is the specified deletion |

## Left out

- The gRPC server, the unix socket, tracing and logging: only whether each step of the one-time setup succeeds is modelled.
- Connections to the mesh that a failed setup leaves open (`nsmConn`, `grpcServer`): library objects without visible effect here.
- The blocking behaviour of `Send`, errors it returns (the code ignores them) and the scheduler behind it: transactions are applied first in, first out, and deadlock freedom is not claimed.
- The order of the goroutines in the client's Create and Delete: not fixed by the code, so the client's interface transactions are not modelled, only its handles.
- Whether the scheduler retries a client deletion that returned early: not part of the repository; runs with and without retries are covered.
- Memif socket paths, and the payload and labels sent to the registry: copied through; identity of an interface is its backend and name.
- Handing the label text and the dummy subnet to the SDK configuration: both are computed by modelled functions, and what the SDK does with them is outside the repository.
- Sharing of connection messages between the endpoint's table and the caller: connections are values here, and each request is a fresh message.
- The width of Go's `int` for indices: an index is bounded by the number of connections, so it cannot overflow.
- UTF-8: strings are sequences of characters, which makes no difference to replacing, splitting and joining; hashing is over bytes.
- `ParseKVStringToMap` of the NSM SDK is not part of this model; `Labels.Deserialized` is the decoder its separators call for.
- Validate functions, the mapping from interface types to mechanisms, the generated adapters, the CRD controller and the agents' assembly: single branches or wiring.
- Subnet.CollisionsExist: exhibits one colliding pair and its extensions; how often names collide is not modelled.
- LabelMode.MixedModeAgreement: asks that prefixes of different services be incomparable when one of them is in label mode; for other prefixes, where the labels that occur decide, the condition is that of AgreementSteps.AgreementLaw.
