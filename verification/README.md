# Shifter in Dafny

Shifter prepares containers on HPC systems. Its C programs compute paths, mounts, environments and the key that says
whether a node is set up already; its Python gateway pulls images, flattens their layers and keeps a record of each.
This project models the deterministic parts of both and proves what they are relied upon for.

| files | what they model |
|---|---|
| `Layers`, `Unpacking`, `Extraction`, `LayerChain` | flattening the layers of an image, extracting them, and finding their order in a manifest |
| `PathItems`, `PathList`, `Appending`, `PathOps`, `RealPath` | rooted paths as doubly linked lists, link substitution, and path resolution below a mount point |
| `StringOrder`, `MountList`, `UnmountTree` | the sorted mount list and the teardown of a tree |
| `Environment` | the environment array and the order of its sources |
| `Modules` | choosing modules that do not exclude each other |
| `VolumeText`, `VolumeEntry`, `VolumeParse`, `VolumeMap`, `ShifterConfig` | volume maps, their normalised text, and the "already loaded" comparison |
| `ImageStore`, `ImageManager`, `ImageRuns` | the gateway's image records, its calls, and interleaved runs |
| `Acl` | access lists from the gateway to the compute node |
| `NodeList` | the node list from the Slurm plugin to the host file |
| `Text`, `Decimal`, `Doubles`, `CStrings`, `Wrappers` | strings, numbers, C buffers and result types |

Each imperative routine is a method proved against a function on values or against a direct statement of its result.
The theorems are lemmas about those functions, or about runs of a state machine.

## How the parts are represented

- A C string is a `seq<char>` without a terminator, or the front of an `array<char>` up to the first NUL where the code
  cuts strings in place or prints into a buffer of computed size.
- List nodes, mount lists, environments, volume maps, module tables and image records are classes with the fields of the
  source. Ghost fields hold the sequence of nodes that the links spell out.
- The file system of path resolution, the outcome of each unmount, the contents of tar files and the clock are
  parameters. `RealPath.ShifterRealPath` takes a bound on the number of links it follows, as a path through a cycle of
  links never ends.
- The records of the image manager are a map, and each database call is one step on it. `find_one` may return any
  record that matches. A call of the manager reads the clock once.
- `ImageRuns` interleaves the calls of one pull at a time, the calls of the status thread for one message at a time,
  removals by clean-up, and the workers, whose messages arrive in the order they were sent. A worker reports each status
  any number of times without going back, then READY or FAILURE, and possibly FAILURE again when its clean-up fails.
- Unsigned arithmetic in the node list's size wraps in between and comes out as over the integers.

## Where the code differs from what one might expect

- Opaque whiteout markers are not honoured (`Layers.OpaqueMarkerIsIgnored`).
- A whiteout removes a target from an older layer only if that layer has an entry of exactly that name
  (`Layers.UnlistedTargetIsMissed`).
- A directory does not replace a file that an older layer has at its path: the file is not removed from the older
  layer, and extraction leaves it there, or fails at the first member inside the directory
  (`Unpacking.FileStaysForDirectory`, `Unpacking.FileFailsChild`).
- A file with two dots in a row in its name is dropped from the image (`Layers.CleanDropsIllegal`).
- A link whose target hangs directly under the root loses the target's first component, unless the path starts with the
  same name (`PathItems.AbsoluteLinkLosesComponent`).
- Appending a path without components, such as `.`, to a path clears its `terminal`, and the next append then replaces
  the whole list: `.` and `x` appended to the root `/r` leave `/x`, without a root (`Appending.DotLosesRoot`).
- A relative path prints without separators (`RealPath.RelativeTextsCollide`).
- In a hexadecimal size the letters `b` and `e` are digits, not units (`VolumeText.HexSize`).
- Inserting into a descending mount list usually breaks its order (`Mounts.InsertedMeaning`).
- Requests with access lists do not see pulls in progress with other lists (`ImageStore.AclPullsOverlap`).
- Completing a pull record that is the READY record of that image already removes the record
  (`ImageStore.CompletionExact`).
- An image whose `private` field is None is open on the compute node, although the gateway asks its lists. One with one
  empty and one missing list is open there, although the gateway admits nobody (`Acl.AgreementExact`). An id of 2^32
  or more admits another caller there (`Acl.WideIdAdmitsAnother`).
- The normalised text of a per-node cache says `fstype=`, a key the parser does not know; the round trip holds because
  there is only one file system type (`VolumeText.CacheWordOptions`).
- A request can look loaded although more modules are: when the name of the next one begins with a quote and a brace.
  Module names come from the keys of the configuration file, which may hold quotes; the image's identifier is filtered
  and the user's name comes from the password database (`ShifterConfig.AlreadyLoadedExact`).

## Model

| member | source | states |
|---|---|---|
| `Unpacking.FlattenPreservesMeaning` | imagegw/shifter_imagegw/dockerv2.py:607-706 | For any number of layers (without their illegal members: unique names, parent directories listed, marks only at the start of a base name, no opaque markers), extracting the flattened member lists oldest first gives what applying the layers one at a time gives, if and only if no layer has a directory at the path of an older layer's file, unless a layer behind the file hides it. Illegal members, which the code drops, are no part of a layer on either side (`Layers.CleanDropsIllegal`). |
| `Unpacking.FlattenKeeps` | imagegw/shifter_imagegw/dockerv2.py:646-683 | A flattened list has exactly the members of its layer that are neither illegal nor whiteouts and that no later layer hides. |
| `Layers.FlattenIsApplied` | imagegw/shifter_imagegw/dockerv2.py:607-686 | Under the same conditions, whatever the directories, the last member that the flattened lists have for each path is the one that applying the layers leaves there. |
| `Unpacking.FlattenStepExact` | imagegw/shifter_imagegw/dockerv2.py:646-698 | One layer over any older lists, opaque markers included: extraction means applying the layer if and only if every path that an opaque marker alone hides is put back by the layer itself, and no list has a directory at the path of a file in an older one. |
| `Layers.OverlayStepExact` | imagegw/shifter_imagegw/dockerv2.py:646-683 | The part of this that is about opaque markers, for the last member of each path. |
| `Unpacking.ExtractAllExact` | imagegw/shifter_imagegw/dockerv2.py:687-698 | Extracting lists over each other leaves the last member of each path exactly when no directory meets a file of an older list: an existing file is not replaced by a directory. |
| `Unpacking.FlattenFails` | imagegw/shifter_imagegw/dockerv2.py:687-698 | Extraction of flattened layers raises an error if and only if a layer has a member, not hidden by a later layer, below the path of an older layer's file that no layer behind it hides. |
| `Unpacking.FileStaysForDirectory` | imagegw/shifter_imagegw/dockerv2.py:668-681 | A file in one layer and a directory of the same name in the next: the file stays, where applying the layers gives the directory. |
| `Unpacking.FileFailsChild` | imagegw/shifter_imagegw/dockerv2.py:668-681 | With a member inside that directory, extraction fails. |
| `Layers.FlattenNeverOverwrites` | imagegw/shifter_imagegw/dockerv2.py:668-683 | After flattening, no later list has a non-directory at or above a path of an earlier list. |
| `Layers.WhiteoutStepExact` | imagegw/shifter_imagegw/dockerv2.py:658-666 | Removing a whiteout target where it is listed, and only there, is hiding the target and everything below it: for the list as a whole exactly when the target is listed or nothing is at or below it. |
| `Layers.PruneWhiteoutsMeaning` | imagegw/shifter_imagegw/dockerv2.py:656-666 | All whiteouts of a layer together hide exactly the paths at or below their targets, and keep parent directories listed. |
| `Layers.PruneNotDirsMeaning` | imagegw/shifter_imagegw/dockerv2.py:668-681 | The non-directories of a layer remove from an older layer exactly what is at or below them. |
| `Layers.PruneMeaning` | imagegw/shifter_imagegw/dockerv2.py:656-681 | Both removals of a layer from an older one together, as one visibility test. |
| `Layers.WhiteoutAgrees` | imagegw/shifter_imagegw/dockerv2.py:646-649 | The substring test for a whiteout agrees with the whiteout rule of the image layer format on names whose marks are at the start of a base name. |
| `Layers.MarkMakesWhiteout` | imagegw/shifter_imagegw/dockerv2.py:646-649 | On any name: a component that begins with the mark makes it a whiteout. |
| `Layers.WhiteoutHasMark` | imagegw/shifter_imagegw/dockerv2.py:646-649 | Every whiteout has such a component. |
| `Layers.ReplaceOne` | imagegw/shifter_imagegw/dockerv2.py:658-659 | On any name: the first mark behind a slash becomes a slash, and what is behind it is treated likewise. |
| `Layers.ReplaceUnmarked` | imagegw/shifter_imagegw/dockerv2.py:658-659 | A name without a mark behind a slash stays as it is. |
| `Layers.TargetAgrees` | imagegw/shifter_imagegw/dockerv2.py:658-661 | The textual replacement of the mark gives the path the whiteout stands for. |
| `Layers.CleanIsWellFormed` | imagegw/shifter_imagegw/dockerv2.py:637-644 | Without its illegal members a layer is well-formed if and only if each of the others has plain marks and all its parent directories, whatever the illegal ones are. |
| `Layers.CleanDropsIllegal` | imagegw/shifter_imagegw/dockerv2.py:637-644 | What is dropped: exactly the members under `dev/`, the absolute ones and those with two dots in a row anywhere in the path, also in a file name; nothing else, and nothing at all exactly when there is none. |
| `Layers.CleanMembers` | imagegw/shifter_imagegw/dockerv2.py:636-644 | A member is in the cleaned layer if and only if its name neither begins with `dev/` or `/` nor has two dots in a row, and the archive has it under this name (not one beginning with `./`) or under `./` and this name. |
| `Layers.CleanOne` | imagegw/shifter_imagegw/dockerv2.py:636-644 | What becomes of a single member, with or without `./` in front: it stays under its name, or is dropped. |
| `Layers.CleanConcat` | imagegw/shifter_imagegw/dockerv2.py:636-644 | Members are cleaned one by one, so order and repetitions stay. |
| `Layers.OpaqueMarkerIsIgnored` | imagegw/shifter_imagegw/dockerv2.py:645-666 | A concrete opaque marker that the code does not honour. |
| `Layers.OpaqueLeaks` | imagegw/shifter_imagegw/dockerv2.py:645-666 | Whenever an opaque marker alone hides a path of the older layer and the layer does not bring it back, the result differs from applying the layer. |
| `Layers.UnlistedTargetIsMissed` | imagegw/shifter_imagegw/dockerv2.py:662-665 | A whiteout whose target has no entry of its own leaves the entries below it in place. |
| `Extraction.RemoveWhiteoutTargets` | imagegw/shifter_imagegw/dockerv2.py:656-666 | The nested loops over older layers and whiteouts compute the pruning of every older layer. |
| `Extraction.RemoveReplaced` | imagegw/shifter_imagegw/dockerv2.py:668-681 | The loops over older layers and replaced directories compute the pruning by non-directories. |
| `Extraction.SelectedExact` | imagegw/shifter_imagegw/dockerv2.py:619-631 | Layers are selected one by one in their order: none of an excluded blob, otherwise the members of its archive. |
| `Extraction.SelectMembers` | imagegw/shifter_imagegw/dockerv2.py:619-686 | The first pass over the linked layers, excluded ones skipped, yields the flattened member lists. |
| `Extraction.ExtractMembers` | imagegw/shifter_imagegw/dockerv2.py:687-705 | The second pass extracts the selected lists in order, with the same layers skipped, up to the first error. |
| `Extraction.ExtractDockerLayers` | imagegw/shifter_imagegw/dockerv2.py:607-706 | The result is the extraction of the flattened layers that are not excluded; for well-formed layers it is what applying them gives exactly when no layer has a directory over an older file that stays, and an error exactly when one has a member below such a file. |
| `LayerChain.WalkVisitsOnce` | imagegw/shifter_imagegw/dockerv2.py:211-221 | On any map in which each layer sits under one parent, the walk ends and visits no layer twice, because each step consumes an entry. |
| `LayerChain.WalkFollowsParents` | imagegw/shifter_imagegw/dockerv2.py:211-221 | Each layer in the chain has the id before it as its parent, and the walk stops only when no entry is left for the last id. |
| `LayerChain.OrderIsChain` | imagegw/shifter_imagegw/dockerv2.py:169-223 | Whatever manifest is accepted, the order starts at the one root, is a chain without repetition, and is the whole history if it is as long. |
| `LayerChain.WalkCoversSingleChain` | imagegw/shifter_imagegw/dockerv2.py:169-223 | The order covers the whole history if and only if the history is, in some order, a single chain of distinct ids. |
| `LayerChain.DecodeLayer` | imagegw/shifter_imagegw/dockerv2.py:187-205 | One history entry: the dictionary by parent, the root, and each of the four errors. |
| `LayerChain.EntryExact` | imagegw/shifter_imagegw/dockerv2.py:188-205 | An entry is refused exactly when it is faulty, with the error of its fault: no `v1Compatibility`, a second root, a second child of a parent with another id, a missing id or a missing key. |
| `LayerChain.CollectExact` | imagegw/shifter_imagegw/dockerv2.py:187-205 | The history is collected if and only if no entry is faulty; otherwise the first faulty entry decides the error. |
| `LayerChain.ManifestExact` | imagegw/shifter_imagegw/dockerv2.py:169-209 | Which error each manifest gets: a missing one or a missing key, then a version other than 1, then different lengths, then the first faulty entry, then the missing root; and none exactly when nothing is wrong. |
| `LayerChain.SingleChainFound` | imagegw/shifter_imagegw/dockerv2.py:169-223 | A manifest with its four keys, version 1, equal lengths and a history that is a single chain is accepted with all its entries. |
| `LayerChain.CollectLayers` | imagegw/shifter_imagegw/dockerv2.py:187-205 | The loop over the history collects what the specification does, or fails with its error. |
| `LayerChain.LinkLayers` | imagegw/shifter_imagegw/dockerv2.py:211-221 | The `child` fields link the layers in the order of the walk, ending in None. |
| `LayerChain.ConstructImageMetadata` | imagegw/shifter_imagegw/dockerv2.py:169-223 | The checks, the loop and the linking together, said without the specification of the steps: each fault gives its error and success needs the four keys, version 1 and equal lengths; the linked layers run from the root, each the parent of the next; and a manifest whose history is a single chain gives a chain of all its entries, decoded. |
| `PathItems.NormalizeKeepsRoot` | src/PathList.c:281-351 | Normalising with a floor never changes the components up to the floor. |
| `PathItems.NormalizeInStages` | src/PathList.c:281-351 | A prefix may be normalised first without changing the result. |
| `PathItems.DropAtFloor` | src/PathList.c:306-320 | Dropping a `..` that stands right behind the root does not change the normal form. |
| `PathItems.DropWithParent` | src/PathList.c:322-350 | Dropping a `..` together with the component before it does not change the normal form. |
| `PathItems.SubstituteExact` | src/PathList.c:591-687 | Substituting a link gives parent + target, normalised, followed by the rest, if and only if the code does not lose a component: the target hangs directly under the root and begins with another name than the path does. |
| `PathItems.SubstituteKeepsPrefix` | src/PathList.c:591-687 | After a substitution everything before the returned component is unchanged, the root is unchanged, and no `..` is left. |
| `PathItems.CommonBeyondRoot` | src/PathList.c:388-439 | A link's path and its target share at least the root, and when exactly the root although the target hangs under it, a component is lost. |
| `PathItems.AbsoluteLinkLosesComponent` | src/PathList.c:209-279 | A concrete absolute link whose target loses its first component. |
| `PathItems.ComponentsOfRender` | src/PathList.c:549-589 | The text of proper components is cut into the same components, so different lists have different texts. |
| `PathLists.PathList.Push` | src/PathList.c:92-104 | Linking a new last component keeps the list well linked and appends one item. |
| `PathLists.PathList.DropHead` | src/PathList.c:294-305 | Dropping a leading `..` keeps the chain; the new head keeps its stale parent. |
| `PathLists.PathList.DropOne` | src/PathList.c:306-320 | Dropping a `..` behind the root removes exactly that component. |
| `PathLists.PathList.DropTwo` | src/PathList.c:338-350 | Dropping a `..` and its parent removes exactly those two, relinks the neighbours and mends `terminal`. |
| `PathLists.PathList.Splice` | src/PathList.c:338-350 | Two components become neighbours, and what was between them drops out of the chain. |
| `PathLists.PathList.DropUp` | src/PathList.c:306-350 | Whichever way a `..` is dropped, the normal form of the items is unchanged. |
| `PathLists.PathList.Resolve` | src/PathList.c:281-351 | On any well-linked absolute list with no `..` at or before the root marker the in-place loop ends and leaves exactly the normal form, with sibling links, root marker and `terminal` consistent; a relative list is left alone. |
| `PathLists.PathListInit` | src/PathList.c:53-110 | Parsing gives the components of the path, an absolute one normalised, in a freshly linked list; only the empty path gives none. |
| `PathLists.Duplicate` | src/PathList.c:170-207 | A fresh list with the same items and root marker. |
| `PathLists.MatchPartial` | src/PathList.c:511-543 | The last component of a path that matches a partial path, or none; for a partial path without components, the parent the head happens to have. |
| `PathOps.SetRoot` | src/PathList.c:112-135 | The root marker is set behind the components of the given absolute path if these begin the list, and cleared for `/`; otherwise the call fails. |
| `PathOps.Append` | src/PathList.c:137-168 | The new items, root marker and `terminal` are those of one step of appending: the floor-normalisation of the old items and the new path's, or of the new path's alone when an earlier append has cleared `terminal`. |
| `PathOps.Concatenate` | src/PathList.c:147-163 | The components of another list are linked behind the last one, or replace the whole list when `terminal` is NULL; appending none leaves `terminal` NULL. |
| `Appending.AppendsStayInside` | src/PathList.c:137-168 | Any number of appends to a rooted path leaves the one normalisation of everything appended, above unchanged items up to the root and with the root still marked, if and only if no path without components is followed by another that is not empty. |
| `Appending.AppendsExact` | src/PathList.c:137-168 | For any absolute path, rooted or not: the result is that normalisation if and only if nothing was cut off, or the root is `/` and what was appended later climbs over all that was cut off. |
| `Appending.AppendsAre` | src/PathList.c:137-168 | What any number of appends leaves: one normalisation of everything, or of what was appended since `terminal` was last found cleared, and then without a root. |
| `Appending.RunClimbs` | src/PathList.c:281-351 | A list appended to a normalised one takes as many components off it as its `..` lead out of it, but none at or below the floor. |
| `Appending.DotLosesRoot` | src/PathList.c:147-159 | Appending `.` and then any name leaves that name alone, for every root. |
| `PathOps.Graft` | src/PathList.c:242-254 | Components of another list are linked behind a component; under the root the first of them becomes its own parent. |
| `PathOps.PlaceTarget` | src/PathList.c:225-262 | An absolute link goes behind the root, a relative one behind the last component; directly under the root its first component becomes its own parent. Without a component to go behind it replaces the list. |
| `PathOps.SymlinkResolve` | src/PathList.c:209-279 | The target of a link as a path of its own: behind the root for an absolute one, or at `/` when there is none, behind the parent for a relative one, then normalised. |
| `PathOps.DuplicatePartial` | src/PathList.c:353-386 | A copy up to a given component, with the root marker if it is in the copy; without components for NULL, and none for a component that is not in the list. |
| `PathOps.CommonPath` | src/PathList.c:388-439 | The longest common prefix with its root marker; none when exactly one list is absolute or rooted, or the markers sit at different places of the prefix. |
| `PathOps.AppendComponents` | src/PathList.c:441-489 | Copies of a component and all that follow are appended, and the first copy is returned. |
| `PathOps.TrimLast` | src/PathList.c:491-509 | Removes the last component, if there is one; the root marker is outside when that was the root. |
| `PathOps.MergeTarget` | src/PathList.c:617-657 | The common part of the link's path and its target, the rest of the target and the rest of the path make up the substituted path and its first unseen component. |
| `PathOps.ResolveLink` | src/PathList.c:600-615 | The path up to the link, and its target as a path of its own; none exactly for an empty value. |
| `PathOps.ReplaceComponents` | src/PathList.c:665-680 | A list takes over the components, root marker and `terminal` of another. |
| `PathOps.SymlinkSubstitute` | src/PathList.c:591-687 | In place, the path becomes the substituted path; the component returned is the first that has not been looked at. |
| `RealPath.WalkResolvesToCleanPath` | src/shifter_core.c:3801-3829 | Every returning run over any file system whose links below the mount point can be followed and do not run through themselves yields a path that starts with the mount point's components, has no `..`, and has no link among its prefixes. |
| `RealPath.WalkFollowsLinks` | src/shifter_core.c:3801-3829 | If no link makes the code lose a component, the run is the run that follows each link by parent + target. |
| `RealPath.OrdinaryLinksExact` | src/PathList.c:209-279 | The two conditions on links together: each link below the root has a value with a component, is relative at least two levels down (whatever `..` it has) or absolute with the first component of its own path, and does not run through itself. |
| `RealPath.TreeIsFollowed` | src/shifter_core.c:3801-3829 | A file system with a relative link up out of its directory and an absolute one meets all conditions, and both are followed to where they lead. |
| `RealPath.StepResumes` | src/shifter_core.c:3801-3829 | Continuing behind a substitution, instead of from the front, skips no link: everything before the returned component is plain. |
| `RealPath.StringPartial` | src/PathList.c:549-589 | The text of the path up to a component, without any separator for a relative path, or failure when it is too long. |
| `RealPath.RelativeTextsCollide` | src/PathList.c:569-577 | Two components of a relative path print as one. |
| `RealPath.LookAt` | src/shifter_core.c:3802-3829 | One round of the loop on the linked list is one step of the walk on items. |
| `RealPath.FollowLink` | src/shifter_core.c:3814-3827 | Following one link is one step of the walk, and everything before the place returned has been looked at. |
| `RealPath.WalkPath` | src/shifter_core.c:3801-3829 | The loop from the front of the search path gives the outcome of the walk. |
| `RealPath.WalkWithoutLinks` | src/shifter_core.c:3801-3834 | With nothing but plain prefixes the walk gives the text of the path itself unless that is too long, and it fails at the first prefix that does not exist. |
| `RealPath.ShifterRealPath` | src/shifter_core.c:3764-3835 | The program over the linked lists is the specified search; what it returns is clean, and it is the search that follows every link where none loses a component. Without links on the way the answer is the text of the normalised path below the mount point, and a missing path, a relative or empty mount point or an empty source fails. |
| `Mounts.RunRefinesSet` | src/MountList.c:161-306 | From the empty list, every mix of insertions and removals leaves a strictly ascending list without duplicates whose elements are those of a set under the same operations. |
| `Mounts.InsertedMeaning` | src/MountList.c:196-256 | Insertion adds the key; order survives, and into a descending list exactly when the key precedes all others (the case the code forgets). |
| `Mounts.RemovedElements` | src/MountList.c:258-283 | Removal takes out exactly the key. |
| `Mounts.SortedIsStrict` | src/MountList.c:161-194 | Sorting a list without duplicates gives a strictly ascending one. |
| `Mounts.MountList.SetSort` | src/MountList.c:161-194 | Sorts an unsorted list, reverses an opposite one, and labels it truthfully. |
| `Mounts.MountList.ReverseCells` | src/MountList.c:161-194 | Reversal in place. |
| `Mounts.MountList.QSort` | src/MountList.c:161-194 | Sorting in either direction leaves the sorted sequence in the cells. |
| `Mounts.MountList.Find` | src/MountList.c:285-306 | Binary search in either direction answers as a linear scan would. |
| `Mounts.MountList.AppendCell` | src/utility.c:206-238 | Appends a string to the terminated array, growing it in blocks so that the terminator always fits. |
| `Mounts.MountList.InsertKey` | src/MountList.c:196-256 | A key that is present is refused; another is appended and shifted into place, NULL-terminated within capacity. |
| `Mounts.MountList.Remove` | src/MountList.c:258-283 | The key's cell is closed up and the rest keeps its order. |
| `Unmounting.UnmountTree` | src/shifter_core.c:3198-3244 | The mounts unmounted are the selected ones in descending order up to the first failure; exactly these are removed from the list, and the order of a sorted list is restored; an unsorted one stays descending. Said without the selection: what is noted lies at or under the base and could be unmounted, descendants first; 0 means all of it, and -1 that all greater ones were unmounted up to one that could not be. |
| `Unmounting.UnmountSelected` | src/shifter_core.c:3214-3234 | The loop unmounts the selected mounts in list order up to the first failure, and notes them in a list of its own. |
| `Unmounting.Forget` | src/shifter_core.c:3235-3238 | Every noted mount is removed, and no other. |
| `Unmounting.TeardownOrder` | src/shifter_core.c:3198-3244 | What is unmounted lies at or under the base, all of it on success, each descendant before its ancestor, and success means that every one could be unmounted. |
| `Unmounting.TeardownStops` | src/shifter_core.c:3214-3234 | When the teardown stops, it is at a mount of the tree that could not be unmounted, with exactly the greater ones of the tree done. |
| `Unmounting.TeardownMeans` | src/shifter_core.c:3198-3244 | What the log, the remaining list and the return code say about each other, for any list and base. |
| `Unmounting.SelectedIsInTree` | src/shifter_core.c:3214-3230 | The prefix and slash tests select exactly the base and what starts with base and a slash. |
| `Unmounting.DescendantsFirst` | src/shifter_core.c:3211-3212 | In descending order no mount comes before one of its descendants. |
| `Environment.PutMeaning` | src/shifter_core.c:3369-3421 | Replacing, appending and prepending are the update of a map, on any array; distinct names stay distinct. |
| `Environment.UnsetMeaning` | src/shifter_core.c:3338-3359 | With distinct names, swap-removal is removal from the map and keeps names distinct. |
| `Environment.UnsetRemovesOneEntry` | src/shifter_core.c:3338-3359 | On any array a removed name is gone if and only if it had at most one entry. |
| `Environment.RunRefinesMap` | src/shifter_core.c:3278-3421 | Any sequence of changes to an array of distinct names is the same sequence on the map. |
| `Environment.BindingsFind` | src/shifter_core.c:3293-3330 | The linear search by `name=` finds a name exactly when the map has it, and its entry holds the map's value. |
| `Environment.PutTwice` | src/shifter_core.c:3369-3421 | Setting the same entry again changes nothing. |
| `Environment.LastLineTwice` | src/shifter_core.c:3563-3613 | Reading past a final newline handles the last line of an env file twice, without effect. |
| `Environment.LastWordWins` | src/shifter_core.c:3504-3561 | The last setting or removal of a name decides, whatever came before. |
| `Environment.SiteUnsetWins` | src/shifter_core.c:3504-3561 | No name of the site's unset list is in the result, whatever image, file, user and modules supplied. |
| `Environment.SiteSetWins` | src/shifter_core.c:3504-3561 | A name the site sets, and does not touch otherwise, has the site's last value. |
| `Environment.SiteSurrounds` | src/shifter_core.c:3548-3559 | What the site appends and prepends surrounds the value in the order of the lists. |
| `Environment.SourcesTakePrecedence` | src/shifter_core.c:3504-3561 | Which source wins, for every name: what the site unsets is gone; what the site, or else the last module, sets without changing it further has the last value there; a name neither mentions has the user's last value, or else the file's, or else the image's, and when nobody sets it, what it was before. |
| `Environment.SourceWins` | src/shifter_core.c:3511-3531 | The user's, file's and image's part of this: a later source beats an earlier one, and within a source the last entry counts. |
| `Environment.ModuleWins` | src/shifter_core.c:3533-3546 | The modules' part: the value of a module that no later module and not the site mentions, whatever came before. |
| `Environment.EnvArray.FindEnv` | src/shifter_core.c:3293-3330 | The index of the first entry of the name, before the terminator. |
| `Environment.EnvArray.EnvSize` | src/shifter_core.c:3278-3285 | The number of entries before the terminator. |
| `Environment.EnvArray.UnsetEnv` | src/shifter_core.c:3338-3359 | The last entry moves into the gap and the array stays terminated. |
| `Environment.EnvArray.PutEnv` | src/shifter_core.c:3369-3421 | Accepts exactly entries with a non-empty value, and changes the array as specified, reallocating when it adds. |
| `Environment.EnvArray.PutFile` | src/shifter_core.c:3563-3613 | Accepts exactly files whose lines are ignored or have a value; the entries up to the first bad line are set. |
| `Environment.EnvArray.PutUser` | src/shifter_core.c:3524-3531 | All user entries are set in order, or the first without a value fails. |
| `Environment.EnvArray.PutModules` | src/shifter_core.c:3533-3546 | The four lists of each active module, module by module. |
| `Environment.EnvArray.PutSettings` | src/shifter_core.c:3548-3559 | Set, append, prepend and unset, in this order. |
| `Environment.EnvArray.SetupEnv` | src/shifter_core.c:3504-3561 | Succeeds exactly when each user entry, and each line of the file that is neither blank nor a comment, has an equals sign with something behind it; then the array has gone through all sources in their order. With distinct names at the start it is the map after them, in which site, modules, user, file and image take precedence in this order (as in `Environment.SourcesTakePrecedence`). |
| `Modules.UdiConfig.FindModule` | src/UdiRootConfig.c:167-203 | The first enabled module of the name, and whether an active module and it exclude each other in either direction. |
| `Modules.UdiConfig.ClashesAhead` | src/UdiRootConfig.c:173-181 | Whether the module excludes an active one. |
| `Modules.UdiConfig.ClashesBehind` | src/UdiRootConfig.c:182-190 | Whether an active module excludes it. |
| `Modules.UdiConfig.AddModule` | src/UdiRootConfig.c:160-210 | One name: its module joins the active ones, or the whole request cannot be met. |
| `Modules.UdiConfig.ParseSelected` | src/UdiRootConfig.c:129-217 | For any table and request, the active modules are pairwise free of conflicts at every exit and follow the request; the call succeeds if and only if the request can be met, and otherwise stops at the first name that cannot. |
| `Modules.UdiConfig.ResolveAll` | src/UdiRootConfig.c:240-276 | Names of excluded modules become references to the first module of that name; fails exactly when a name is missing. |
| `Modules.UdiConfig.ResolveModule` | src/UdiRootConfig.c:254-275 | All names of one module are resolved, or one of them is not in the table. |
| `Modules.UdiConfig.LookUp` | src/UdiRootConfig.c:256-263 | The first module with the name, enabled or not. |
| `Modules.UdiConfig.Postprocess` | src/UdiRootConfig.c:240-281 | Succeeds exactly when all names are known and the default request can be met, which is then active. |
| `Modules.StopMeansUnsatisfiable` | src/UdiRootConfig.c:160-210 | The name at which selection stops proves that no selection could meet the request. |
| `Modules.CompleteMeansSatisfiable` | src/UdiRootConfig.c:160-210 | A conflict-free list for all names proves that the request can be met. |
| `Modules.ChosenIsUnique` | src/UdiRootConfig.c:167-172 | A name stands for at most one module. |
| `Modules.NoneAsksForNothing` | src/UdiRootConfig.c:144-158 | `none`, in any case and with blanks around it, asks for no module. |
| `Modules.NamesAreRequested` | src/UdiRootConfig.c:144-160 | Any other list of names, with blanks around it, asks for these names in order. |
| `Modules.ClashByName` | src/UdiRootConfig.c:240-276 | After resolution, in a table of distinct names, two modules exclude each other exactly when one names the other. |
| `VolumeText.SizeRoundTrip` | src/VolumeMap.c:174-204 | The printed number of bytes of any accepted size reads back as the same size, also above 2^53, because it is a double already. |
| `VolumeText.HexSize` | src/VolumeMap.c:174-204 | A hexadecimal size without point and exponent is its value in bytes; what look like the units `b` and `e` are digits. |
| `VolumeText.UnitSize` | src/VolumeMap.c:174-204 | A whole number and a unit, in either case and whatever follows: the number times the unit's power of 1024 exactly, if the number is a double and the product below 2^63; the letter `e` only where no exponent digits follow. |
| `VolumeText.SizeIsClose` | src/VolumeMap.c:174-204 | Any decimal, perhaps with point, exponent and unit: the value times the power of 1024 to within one byte and a relative 2^-52. |
| `VolumeText.HexSizeIsClose` | src/VolumeMap.c:174-204 | The same for any hexadecimal numeral, with a point and an exponent of two behind `p`. |
| `VolumeText.SignedSize` | src/VolumeMap.c:184-203 | Blanks in front of a number and a plus sign do not matter; with a minus sign the result is never positive. |
| `Doubles.NearestIsNear` | src/VolumeMap.c:184-184 | The double read for a decimal or hexadecimal numeral has 53 bits and is within half a unit of their last place. |
| `Doubles.TruncIsRepresentable` | src/VolumeMap.c:203-203 | Cutting a double off to whole bytes leaves a number that is a double. |
| `Doubles.WholeIsExact` | src/VolumeMap.c:184-184 | A whole number that is a double is read exactly. |
| `Doubles.TruncIsClose` | src/VolumeMap.c:200-203 | The double nearest to a fraction, multiplied by a power of two and cut off, is that multiple to within one and a relative 2^-52. |
| `Doubles.ScanHexadecimal` | src/VolumeMap.c:184-184 | Reading a hexadecimal numeral finds its digits, each counting for four places of two behind the point, the exponent and the rest. |
| `Doubles.HexDigits` | src/VolumeMap.c:184-184 | The sixteen digits have their values in either case, and a further digit multiplies by sixteen. |
| `Doubles.HexDigitsAre` | src/VolumeMap.c:184-184 | The hexadecimal digits are these, in either case, and no other character. |
| `Doubles.ScanDecimal` | src/VolumeMap.c:184-184 | Reading a decimal with point and exponent up to what follows it finds its digits, the power of ten and the rest. |
| `VolumeText.BytesAreSize` | src/VolumeMap.c:174-204 | A positive result, also of a fraction or with an exponent, is below 2^63 and exactly representable. |
| `VolumeText.CacheWordOptions` | src/VolumeMap.c:514-514 | The printed options of a per-node cache are cut into the same four key and value pairs. |
| `VolumeText.PairsAreRead` | src/VolumeMap.c:230-252 | Pairs between commas, without further equals signs, are read as the same keys and values in order. |
| `VolumeText.BareKeySwallows` | src/VolumeMap.c:230-252 | A key without a value gets everything behind the next equals sign as its value, and the key in front of that has none. |
| `Text.CaseExact` | src/VolumeMap.c:259-350 | Names are compared letter by letter, upper and lower case alike. |
| `VolumeText.PlainWords` | src/VolumeMap.c:257-350 | A word without an equals sign is the flag of its name, in any case; an empty one is none, and any other is refused. |
| `VolumeText.OptionsOnlyForCache` | src/VolumeMap.c:257-350 | Options behind any other name than that of the cache are refused. |
| `VolumeText.CacheExact` | src/VolumeMap.c:271-338 | A per-node cache is accepted if and only if each of its options is and a size is given; it has the last size and the last block size, by default 1 MiB. |
| `VolumeEntries.WordsParse` | src/VolumeMap.c:206-387 | Printed flags parse to themselves, in order. |
| `VolumeEntries.ParsedIsWellFormed` | src/VolumeMap.c:389-516 | Whatever piece is accepted is in normal form: filtered paths, flags in type order and without repetition, valid sizes, and accepted by the rules. |
| `VolumeEntries.PrintParses` | src/VolumeMap.c:493-516 | The normalised text of an entry in normal form parses to that entry. |
| `VolumeEntries.EntryRoundTrip` | src/VolumeMap.c:389-585 | Parsing, printing and parsing again gives the same `from`, `to` and flags, for any accepted piece, sizes as fractions, with exponents or in hexadecimal included. |
| `VolumeEntries.PrintInjective` | src/VolumeMap.c:493-516 | Two entries in normal form have the same text only if they are the same. |
| `VolumeEntries.PrintIsRaw` | src/VolumeMap.c:493-516 | The text has neither quotes nor semicolons, whatever was asked for. |
| `VolumeEntries.KindsInOrder` | src/VolumeMap.c:720-728 | The order of the five kinds of flags. |
| `VolumeEntries.UserRequestExact` | src/VolumeMap.c:65-84 | What a user may mount: absolute paths without `..`, at most one read-only flag and one cache, onto `/var/tmp` or onto a target that does not begin with `/etc`, `/var` or `/opt/udiImage` and is not `/opt`. |
| `VolumeEntries.SiteRequestExact` | src/VolumeMap.c:86-115 | What the site may mount: each kind of flag once, not both propagation styles, and onto none of the six named paths. |
| `VolumeEntries.OnePath` | src/VolumeMap.c:464-487 | A piece with one path has it for both ends, filtered, if the site asks; it is refused for a user. |
| `VolumeEntries.TwoPaths` | src/VolumeMap.c:430-491 | A piece with two paths and words has the filtered paths and the flags of the words in type order, if all words are flags and the rules accept the entry. |
| `VolumeEntries.QuotesAreDropped` | src/VolumeMap.c:430-456 | Quotes around a piece do not matter. |
| `VolumeEntries.FlagsConcat` | src/VolumeMap.c:457-462 | The flags of words are those of each word in order, and one bad word refuses all. |
| `VolumeParsing.UserInputPathFilter` | src/utility.c:385-407 | Keeps exactly the letters, digits and `_:.+-`, and the slash if it is allowed, in order. |
| `VolumeParsing.Tokenize` | src/VolumeMap.c:127-172 | Cuts at colons in place; empty tokens stay, except behind a final colon. |
| `VolumeParsing.CutOption` | src/VolumeMap.c:240-252 | One round of the option loop: both ends of the pair are overwritten, earlier pairs are untouched, and what is left is read as specified, also when a bare key swallows the next pair's equals sign. |
| `VolumeParsing.CutOptions` | src/VolumeMap.c:230-252 | After the loop every recorded pointer reads as the specified key or value. |
| `VolumeParsing.FindChar` | src/VolumeMap.c:230-252 | Searching a character up to the terminator, which an earlier cut may have put before the end. |
| `VolumeParsing.CutFlag` | src/VolumeMap.c:229-252 | The name and the options of a flag, read from the buffer after all cuts. |
| `VolumeParsing.ParseBytes` | src/VolumeMap.c:174-204 | The scale and multiplication loops compute the specified size of any decimal or hexadecimal numeral with a unit. |
| `VolumeParsing.ParseCache` | src/VolumeMap.c:284-333 | Options are applied from first to last, and refused as specified. |
| `VolumeParsing.ParseFlag` | src/VolumeMap.c:206-387 | Adds the flag the token stands for, nothing for an empty token, or refuses. |
| `VolumeParsing.VerdictZero` | src/VolumeMap.c:588-662 | Validation returns 0 if and only if both paths are absolute and free of `..`, the flags are allowed, of different types and not both propagation styles, and the target passes the lists. |
| `VolumeParsing.VerdictMeans` | src/VolumeMap.c:588-662 | What each code says: 1 for a bad path or target, 2 for a flag that is not allowed and 3 for a second one of its kind, with only good flags before it, 4 for both propagation styles. |
| `VolumeParsing.CheckFlags` | src/VolumeMap.c:617-636 | The flags in order: the first that is not allowed or occurs again decides, then the pair of propagation styles. |
| `VolumeParsing.ValidateVolumeMap` | src/VolumeMap.c:588-662 | The checks in the code's order return the specified code, 0 to 4. |
| `VolumeParsing.PrintRaw` | src/VolumeMap.c:493-516 | The text built up in a growing buffer is the normalised text. |
| `CStrings.StringBuffer.Append` | src/utility.c:264-313 | Printing again into larger and larger buffers ends with the text appended and terminated. |
| `VolumeMaps.VolumeMap.ParseVolumeMap` | src/VolumeMap.c:389-585 | Adds the entries of all pieces up to the first that is refused; succeeds exactly when none is. |
| `VolumeMaps.ParsePiece` | src/VolumeMap.c:430-487 | One piece between semicolons becomes the specified entry or is refused. |
| `VolumeMaps.ParseFlags` | src/VolumeMap.c:457-462 | The flags of all tokens, or refusal at the first bad one. |
| `VolumeMaps.PiecesStep` | src/VolumeMap.c:419-429 | Advancing to the next semicolon gives the next piece, and empty pieces are skipped. |
| `VolumeMaps.VolumeMap.GetSignature` | src/VolumeMap.c:730-762 | Sorts the texts only, and returns them joined, from a buffer of exactly that size; the entries do not change. |
| `VolumeMaps.JoinInBuffer` | src/VolumeMap.c:745-759 | The buffer of the summed lengths plus one byte an entry is filled exactly; the last separator is the one cut off. |
| `VolumeMaps.SignatureExact` | src/VolumeMap.c:730-762 | Signatures agree if and only if the maps have the same entries, counted, in any order. |
| `VolumeMaps.SignatureRoundTrip` | src/VolumeMap.c:730-762 | Parsing a signature gives the same entries again, counted. |
| `StringOrder.SortIsCanonical` | src/VolumeMap.c:741-743 | Sorting two lists gives the same list exactly when they are permutations of each other. |
| `StringOrder.CompareExact` | src/VolumeMap.c:716-718 | Less means a proper prefix, or the smaller character at the first difference. |
| `ShifterConfig.AlreadyLoadedExact` | src/shifter_core.c:2101-2218 | With no quote in image and user name and no comma in module names, comparing finds a request equal to a saved one if and only if image, user and volume entries (counted, in any order) agree and the module names do too, in order, or the saved modules go on with a name that begins with a quote and a brace. |
| `ShifterConfig.AlreadyLoadedPlain` | src/shifter_core.c:2101-2218 | Without quotes in the saved module names, if and only if all four agree. |
| `ShifterConfig.QuotesCollide` | src/shifter_core.c:2116-2124 | With a quote in the image or the user name the border between the two is lost, for any texts around it. |
| `ShifterConfig.ConfigTextExact` | src/shifter_core.c:2118-2127 | The text of the four fields, written out. |
| `ShifterConfig.ActiveNamesHaveNoComma` | src/UdiRootConfig.c:160-203 | Modules that a request made active have non-empty names without commas. |
| `ShifterConfig.GenerateConfigString` | src/shifter_core.c:2101-2136 | The text of the four fields of a request; sorting the map's texts is its only effect. |
| `ShifterConfig.ModuleList` | src/shifter_core.c:2113-2116 | The names of the active modules, each followed by a comma. |
| `ShifterConfig.SaveShifterConfig` | src/shifter_core.c:2138-2167 | The file is that text and a newline. |
| `ShifterConfig.CompareShifterConfig` | src/shifter_core.c:2169-2218 | Returns 0 exactly when the file begins with the request's text; a missing or shorter file differs. |
| `ImageStore.CompletionExact` | imagegw/shifter_imagegw/imagemngr.py:740-776 | A completed pull leaves its tag on a READY record of the image if and only if the pull record was not that record already and the response names no tag that would stop it. |
| `ImageStore.CompletionServesTag` | imagegw/shifter_imagegw/imagemngr.py:740-776 | In particular for a pull that is not READY, when the response has no tag field. |
| `ImageStore.CompletionEffect` | imagegw/shifter_imagegw/imagemngr.py:740-776 | Every record after a completed pull, field by field: the pull record is gone if another record has the image; the tag leaves all records of the system for the target, unless that is another record and carries the response's tag already; and the target becomes READY with the response's lists, or only gets a new time. |
| `ImageStore.PullDecision` | imagegw/shifter_imagegw/imagemngr.py:426-469 | When a request starts a pull, in terms of the record alone: there is none; it has expired or was never pulled; it is READY or failed and its time is over; it is unfinished with a heartbeat more than an hour old; or it is READY, not pulled in the last ten seconds, and its lists differ as sets or in length. |
| `ImageStore.AclUpdateExact` | imagegw/shifter_imagegw/imagemngr.py:706-738 | An access list update leaves the tag on the image unless the pull record was the image itself, with both of the response's lists on a private one and none on a public one. |
| `ImageStore.AclUpdateEffect` | imagegw/shifter_imagegw/imagemngr.py:706-738 | Every record after an update of the lists, field by field. |
| `ImageStore.NewPullExact` | imagegw/shifter_imagegw/imagemngr.py:471-503 | A new pull record is the only one in progress for its key if and only if all that were had the lists of the request. |
| `ImageStore.PullInFlightIsKept` | imagegw/shifter_imagegw/imagemngr.py:505-592 | While a pull is in progress and alive, another request for its key starts nothing. |
| `ImageStore.AclPullsOverlap` | imagegw/shifter_imagegw/imagemngr.py:471-592 | A concrete pair of pulls of one key that are in progress together because the second has lists. |
| `ImageManager.ImageMngr.HandleMessage` | imagegw/shifter_imagegw/imagemngr.py:140-170 | A message changes the records as specified, for whichever matching image the database returns; a status changes one record, to READY for SUCCESS, and a result without a response or for an unknown record changes nothing. |
| `ImageManager.ImageMngr.AddTagTo` | imagegw/shifter_imagegw/imagemngr.py:680-704 | The tag leaves every record of the system and is added to one; one holder per tag is kept. |
| `ImageManager.ImageMngr.CompletePull` | imagegw/shifter_imagegw/imagemngr.py:740-776 | The calls of the two branches compose to the specified completion. |
| `ImageManager.ImageMngr.UpdateAcls` | imagegw/shifter_imagegw/imagemngr.py:706-738 | The calls of the two branches compose to the specified update. |
| `ImageManager.ImageMngr.UpdateStates` | imagegw/shifter_imagegw/imagemngr.py:822-830 | Removes exactly the FAILURE records whose time is over, and changes no other. |
| `ImageManager.ImageMngr.NewPullRecord` | imagegw/shifter_imagegw/imagemngr.py:471-503 | Removes exactly the records of the query that are not READY, and inserts one under a new id. |
| `ImageManager.ImageMngr.ChooseRecord` | imagegw/shifter_imagegw/imagemngr.py:526-539 | An unfinished record of the key if there is one, else the image that holds the tag, else none. |
| `ImageManager.ImageMngr.FindImage` | imagegw/shifter_imagegw/imagemngr.py:751-753 | Some READY record of the image in the system, or none when there is none. |
| `ImageManager.MakeAclAdds` | imagegw/shifter_imagegw/imagemngr.py:547-555 | An empty list stays empty; any other has the caller added once, and nobody else. |
| `ImageManager.ImageMngr.Pull` | imagegw/shifter_imagegw/imagemngr.py:505-592 | It goes by an unfinished record of the key, or else the READY holder of the tag. A job starts if and only if there is no such record, or it has expired, was never pulled, is READY or failed and its time is over, is unfinished with a heartbeat over an hour old, or is READY, not recent and its lists differ. The new record is PENDING with the request's key and lists; of the others only unfinished ones of the same key and lists go. Otherwise only stale failures are removed. |
| `ImageRuns.StepKeepsInv` | imagegw/shifter_imagegw/imagemngr.py:140-170 | Every database call, by the pull thread, the status thread or an expiry, and every message a worker sends keeps the invariant. |
| `ImageRuns.RunsAreConsistent` | imagegw/shifter_imagegw/imagemngr.py:140-170 | In every reachable state, calls of both threads interleaved, a tag has at most one holder in a system and an image at most one READY record. |
| `ImageRuns.RunsPullOnce` | imagegw/shifter_imagegw/imagemngr.py:471-592 | In runs whose pulls have no lists, at most one record is in progress per system, type and pull tag in every reachable state. |
| `ImageRuns.ReachableStates` | imagegw/shifter_imagegw/imagemngr.py:140-170 | Both statements from the empty database. |
| `ImageRuns.PullCompletes` | imagegw/shifter_imagegw/imageworker.py:443-500 | A whole first pull of any image, with PULLING reported more than once and every later status, is a run, and ends with its tag on a READY record. |
| `ImageRuns.UndisturbedIsHandled` | imagegw/shifter_imagegw/imagemngr.py:140-170 | When nothing comes between its calls, the status thread's steps for a message are one call of the handler. |
| `Acl.CheckRead` | imagegw/shifter_imagegw/imagemngr.py:219-249 | Public images, images without lists and images with two empty lists are open to all; otherwise the caller's id in the user list, or the group or any further group in the group list, is required and enough. |
| `Acl.WriteMeta` | imagegw/shifter_imagegw/converters.py:140-163 | The access lines: only for private images, only for lists that are present, none when they are disabled; `USERACL: ` or `GROUPACL: ` and the ids between commas. |
| `Acl.IdList.ConvertToList` | src/ImageData.c:429-484 | The ids of the tokens that are numbers, narrowed to 32 bits, in an array that grows; none at all beyond a thousand. |
| `Acl.TokenExact` | src/ImageData.c:466-472 | A printed number with blanks around it is that number modulo 2^32, 2^64 - 1 at most before that; a minus sign counts back from 2^64. |
| `Acl.JunkIsSkipped` | src/ImageData.c:466-472 | A number with anything behind it, and an empty token, give no id. |
| `Acl.ImageData.Assign` | src/ImageData.c:404-416 | The two access keys replace their list; an empty result of a non-empty value aborts. |
| `Acl.ImageData.ParseMeta` | src/utility.c:56-164 | The lines in order load the lists or abort: comments and lines without a colon are skipped, key and value are cut at the first colon and trimmed, and a value goes on in the next line behind a backslash. |
| `Acl.ImageData.ParseLine` | src/utility.c:75-139 | One round of the loop, also for a comment between the lines of a value. |
| `Acl.CutLine` | src/utility.c:100-118 | A value cut at a space over two lines, with a backslash, loads like the one line. |
| `Acl.SkippedLine` | src/utility.c:75-85 | A comment anywhere, even inside a continued value, and a first line without a colon do not matter. |
| `Acl.ReadLinesConcat` | src/utility.c:75-139 | Lines are read one after the other, and the first that aborts decides. |
| `Acl.ImageData.CheckPermissions` | src/ImageData.c:636-656 | Everybody when both lists are empty; otherwise the user in one list, or the group or any further group in the other. |
| `Acl.RoundTripExact` | imagegw/shifter_imagegw/converters.py:158-163 | A written list reads back unchanged if and only if it has at most a thousand ids and each fits 32 bits. |
| `Acl.MetadataRoundTrip` | imagegw/shifter_imagegw/converters.py:140-163 | What the compute node has after reading the gateway's lines, for every record. |
| `Acl.AgreementExact` | src/ImageData.c:636-656 | Gateway and compute node give every caller (of 32-bit ids) the same answer if and only if: a private image's lists were written, neither is too long, and the image is open to all or one list is not empty and no id narrows to one that is not listed; or the lists were not written, and everybody is admitted anyway. |
| `Acl.WideIdAdmitsAnother` | src/ImageData.c:450-474 | An id that does not fit 32 bits admits on the node the caller it narrows to, whom the gateway refuses. |
| `NodeList.BufferFits` | wlm_integration/slurm/shifterSpank.c:760-767 | The computed size is that of the text and its terminator, for any hosts and any number of digits. |
| `CStrings.FitsAt` | wlm_integration/slurm/shifterSpank.c:770-779 | Before each entry the room left is enough for it and a separator, and for the last exactly its text and the terminator. |
| `NodeList.WriteNodeList` | wlm_integration/slurm/shifterSpank.c:748-782 | The hosts are cut out of the raw list in place, and the buffer ends up full with the node list and its terminator; without hosts it is one byte that is never written. |
| `NodeList.TakeHost` | wlm_integration/slurm/shifterSpank.c:774-776 | The next host is cut off at its comma, and the rest of the raw list is the rest of the hosts. |
| `CStrings.WriteEntry` | wlm_integration/slurm/shifterSpank.c:777-778 | One print of an entry and a separator into the room left; behind the last entry the separator is cut off. |
| `NodeList.WriteHostFile` | src/shifter_core.c:1050-1110 | The lines of the host file as specified, or failure on a list that is not understood. |
| `NodeList.NodeListRead` | src/shifter_core.c:1074-1104 | Reading a written node list, for any number of tasks: nothing for a count that narrows to 0, and else every host that many times. |
| `NodeList.CountIsNarrowed` | src/shifter_core.c:1089-1097 | A printed count, with or without a minus sign, is cut off at the ends of 64 bits and narrowed to 32 bits with a sign. |
| `NodeList.BadEntries` | src/shifter_core.c:1079-1100 | A host without a slash and a count that reads as 0 fail; a negative count writes nothing. |
| `NodeList.HostFileExact` | src/shifter_core.c:1074-1104 | The host file has each host exactly as often as there are tasks, in order, if and only if the number of tasks is between 1 and 2^31 - 1. |
| `Decimal.ValueOfDigits` | wlm_integration/slurm/shifterSpank.c:760-760 | A printed number has the value it was printed from. |
| `Text.TrimExact` | src/utility.c:167-182 | Blanks on both sides go and nothing else; what is left may have blanks inside. |

## Left out

- Registry access, tokens, tar decoding, checksums, image conversion and transfer: foreign tools and I/O.
- Mounting, forking, capabilities, authentication, the REST layer, the command line programs and plugins around the
  modelled parts.
- Memory allocation failures and freeing; a removed node just becomes unreachable.
- NULL arguments of the C functions, except where NULL has a meaning of its own.
- What flattening does not read of tar members: modes, owners, link targets; the attributes that a directory member sets
  on a file it meets; the change of permissions after extraction. A symbolic link counts as a file here, although a
  member below one that leads to a directory is written there instead of failing.
- Links that the path code cannot follow, because their value has no component where it needs one
  (`PathItems.Followable`), links that run through themselves, and link substitution on paths without a root marker.
- Termination of path resolution over cyclic links, which does not hold.
- PathOps.TrimLast: not for an only component whose parent pointer is stale, which the code follows.
- PathOps.SymlinkResolve: not for values that the code cannot hang behind a component (`PathOps.Placeable`).
- PathOps.ResolveLink: only on paths with a root marker and links below it, which is how path resolution calls it.
- PathOps.SymlinkSubstitute: on a rooted absolute path without `..` and a link below the root, which is how path
  resolution calls it.
- Reading the mount table, and prefix search in a mount list.
- VolumeParsing.ParseBytes: refuses infinities, NaN and values of 2^63 and more, whose conversion to an integer C leaves
  undefined; doubles too small for the full 53 bits are not modelled, as they are less than a byte in any unit.
  `isalnum` is taken in the C locale.
- The arrays behind a volume map's four lists grow in blocks as the mount list's does; they are sequences here.
- The keys of the configuration file; its lines are parsed by the same routine as `Acl.ImageData.ParseMeta`.
- Acl.WriteMeta: its other lines (format, entry point, environment, user).
- Acl.CheckRead: the lookup of the caller's groups, which are a parameter.
- Importing an image from a file, metrics, sessions and administrator checks of the image manager.
- ImageManager.ImageMngr.Pull: one atomic call here; `ImageRuns` has its database calls one by one, but starts a pull
  without asking whether it is due, which allows more runs than the code has.
- ImageRuns.RunsPullOnce: pulls are served one at a time; two served at once could both insert a record.
- Environment.EnvArray.SetupEnv: the contents after a failure, as the program exits then.
