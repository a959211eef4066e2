# Arduino CLI instance registry, in Dafny

This project models the registry of running Arduino Core Services
instances in `commands/internal/instances/instances.go`. The registry
holds a table from `int32` IDs to instance records. Each record
(`coreInstance`) holds a package manager, a library manager and a
library index. An ID counter starts at 1.

- `Create` builds a fresh record and stores it under the counter's value.
  It then increments the counter and returns a handle carrying the ID.
  The record holds a package manager built with the user-agent string,
  a new library manager and the empty library index.
- `IsValid` and `Delete` query or remove a table entry.
- The three getters resolve a handle to one field of its record. They
  fail with the invalid-instance error when the ID is not live.
- The two setters replace one field of a live record in place.
  `SetLibrariesIndex` reports a missing record with the error.
  `SetLibraryManager` reports it by returning false.
- The Explorer/Installer wrappers resolve the handle first. On failure
  they return a nil accessor, a nil release function and the error.

The registry is the class `Instances.Registry`. Records are
`Instances.CoreInstance` objects whose fields the setters assign, as in
the source. The ghost function `Table()` gives the abstract view: each
live ID with its record's current contents. `Valid()` says that no two
live IDs share a record object. `CounterAhead()` says that the counter is
at least 1 and above every ID handed out so far. The ghost set `Issued`
holds every ID handed out, deleted ones included. Package managers,
library managers and library indexes are opaque type parameters. The
empty index is the registry's constant `EmptyIndex`. The ghost set
`Repr` holds the registry and every record object it has allocated.
`Create` stores a newly allocated record, so no object that a caller
already holds can alias a live record.

The counter is a 32-bit signed integer, and `instancesCount++` wraps
from 2^31-1 to -2^31. The model writes this out (`InstanceTypes.Inc`).
Whenever `CounterAhead()` holds before a call, `Create` returns a
positive ID above every ID handed out before. That includes the call
that hands out 2^31-1 itself. Only that call breaks `CounterAhead()`,
because the counter then wraps. The contract states the wrapped value.

The user-agent string is modelled on its own: `BuildUserAgent` is the
accumulating loop, proved equal to the function `UserAgent`. The tags are
shown to be recoverable from it in order when no tag contains a space.

## Model

| member | source | states |
|---|---|---|
| `Instances.CoreInstance.constructor` | commands/internal/instances/instances.go:18-22 | a new record holds exactly the given package manager, library manager and index |
| `Instances.Registry.constructor` | commands/internal/instances/instances.go:25-26 | the initial registry has an empty table and the counter at 1, and satisfies `Valid()` and `CounterAhead()`; its `Repr` is newly allocated |
| `Instances.Registry.IsValid` | commands/internal/instances/instances.go:146-151 | true exactly when the handle's ID is a key of the abstract table; as a function it changes no state |
| `Instances.Registry.GetPackageManager` | commands/internal/instances/instances.go:32-40 | the invalid-instance error exactly when the handle is not valid, otherwise that record's package manager |
| `Instances.Registry.GetLibraryManager` | commands/internal/instances/instances.go:55-63 | the invalid-instance error exactly when the handle is not valid, otherwise that record's library manager |
| `Instances.Registry.GetLibrariesIndex` | commands/internal/instances/instances.go:86-94 | the invalid-instance error exactly when the handle is not valid, otherwise that record's library index |
| `Instances.OpenScoped` | commands/internal/instances/instances.go:46-51 | a failed lookup gives (nil, nil, the same error); a successful one gives the accessor and release that the factory returns for the resolved resource, with no error |
| `Instances.Registry.GetPackageManagerExplorer` | commands/internal/instances/instances.go:45-52 | (nil, nil, invalid-instance) exactly when the handle is not valid; otherwise the explorer and release that `NewExplorer` gives for that record's package manager |
| `Instances.Registry.GetLibraryManagerExplorer` | commands/internal/instances/instances.go:66-73 | (nil, nil, invalid-instance) exactly when the handle is not valid; otherwise the explorer and release of that record's library manager |
| `Instances.Registry.GetLibraryManagerInstaller` | commands/internal/instances/instances.go:76-83 | (nil, nil, invalid-instance) exactly when the handle is not valid; otherwise the installer and release of that record's library manager |
| `Instances.Registry.SetLibrariesIndex` | commands/internal/instances/instances.go:97-106 | returns the error and changes nothing when the handle is not valid; otherwise changes only that record's index, so the getter returns the new index; every other record, the ID set and the counter stay the same |
| `Instances.Registry.SetLibraryManager` | commands/internal/instances/instances.go:109-118 | returns false and changes nothing when the handle is not valid; otherwise returns true and changes only that record's library manager, so the getter returns the new one; every other record, the ID set and the counter stay the same |
| `Instances.Registry.Create` | commands/internal/instances/instances.go:121-143 | returns the old counter as the ID, stores a newly allocated record built from the directories, "tmp" under the data directory and the user agent, with the empty index, and applies the 32-bit increment to the counter; while the counter is ahead, the ID is positive and above every ID issued before (never a live or a deleted one); the counter stays ahead unless the ID handed out was 2^31-1 |
| `Instances.Registry.Delete` | commands/internal/instances/instances.go:154-162 | returns whether the handle was valid, removes exactly that key, leaves the handle invalid, and never moves the counter, so a second delete returns false |
| `Instances.ZeroNeverValid` | commands/internal/instances/instances.go:25-26 | while the counter is ahead, a handle with ID 0 or below (a nil handle included) is never valid and its lookups fail |
| `Instances.TwoCreatesOnFreshRegistry` | commands/internal/instances/instances.go:136-142 | two creates on a fresh registry return the IDs 1 and 2, and both are valid afterwards |
| `Instances.CreateDeleteScenario` | commands/internal/instances/instances.go:146-162 | after one create, ID 1 is valid and ID 2 is not; deleting twice returns true then false; the deleted handle's lookup fails |
| `UserAgentString.BuildUserAgent` | commands/internal/instances/instances.go:123-126 | the loop computes exactly `UserAgent`: the product token and version, then a space and each extra tag in order |
| `UserAgentString.SuffixAppend` | commands/internal/instances/instances.go:124-126 | the text for a concatenation of tag lists is the concatenation of their texts |
| `UserAgentString.ParseSuffixInverts` | commands/internal/instances/instances.go:124-126 | when no tag contains a space, the tags are read back from the appended text unchanged and in order |
| `UserAgentString.UserAgentRoundTrip` | commands/internal/instances/instances.go:123-126 | the user agent starts with "arduino-cli/" and the version, and the rest yields the extra tags back in order |

## Left out

- Locking (`instancesMux`) is not modelled. The model runs every operation to completion before the next. This also drops the unlocked write `i.lm = lm` in `SetLibraryManager`, which can race with `Delete`.
- The read and write locks taken by `NewExplorer` and `NewInstaller` are not modelled, nor are their release functions. They belong to the package-manager and libraries-manager packages, which are not part of this model. The factories are function parameters, so the model captures only which resource they are applied to. Because they are pure functions here, the model does not show that they are not called on failure. It shows that no accessor results on failure.
- `packagemanager.NewBuilder(...).Build()`, `librariesmanager.NewBuilder().Build()`, `paths.Path.Join` and `version.VersionInfo` are foreign. `Create` takes them as parameters: a builder function, the new library manager, a join function and the version string.
- The error result of `Create` is always nil in the source, so the model's `Create` returns only the handle.
- `rpc.Instance` marshalling is not modelled. A handle is nil or carries an ID, and `GetId` on nil yields 0.
- `common/formatter/output/libraries.go` is human-readable table output built on external libraries. It is not part of this model.
