# RootBeer root detection, modelled in Dafny

RootBeer is an Android library that answers one question: is this device rooted? Its
`RootBeer` class runs independent checks and ORs them, left to right and short-circuiting,
into a verdict (`isRooted`, `isRootedWithBusyBoxCheck`). The checks are:

- installed root-management, root-needing and root-cloaking apps, found through the package
  manager;
- `su`, `busybox` and `magisk` binaries in a list of candidate directories;
- dangerous `getprop` values (`ro.debuggable` = 1, `ro.secure` = 0);
- system paths mounted read-write, found in the `mount` table;
- a test-keys build;
- `which su`;
- a scan by the native library.

The model has five modules:

- `Wrappers`: `Option`, which stands for Java's `null` and for a failed read.
- `JavaString`: the `java.lang.String` operations the checks depend on, with Java's
  semantics:
  - `split` on one character with limit 0 (trailing empty pieces dropped, `[s]` when the
    separator is absent);
  - `contains`;
  - `replace(x, "")`;
  - ASCII `equalsIgnoreCase`.

  Includes the round trip between `Split` and `Join`.
- `Host`: what the checks read from the device, as values and oracles. These are:
  - the package registry;
  - file existence;
  - the text printed by `getprop`, `mount` and `which su`;
  - the SDK level;
  - the build tags;
  - the native bridge;
  - the constant lists.
- `Signals`: what each check means, as a pure predicate of the device, and what is proved
  about those predicates:
  - how a mount line and a property line must look to count;
  - the failure policies (the props check fails closed, the mount check fails open);
  - independence from list order;
  - the short-circuit verdict and the signals it evaluates.
- `Checks`: the `RootBeer` class. Its methods scan the lists and command outputs step by
  step, as the Java does, and each is proved to return exactly its `Signals` predicate.

The verdicts `Signals.IsRooted` and `Signals.IsRootedWithBusyBoxCheck` are the OR of those
predicates in the Java's order.

All paths below are under `rootbeerlib/src/main/java/com/scottyab/rootbeer/`.

## Model

| member | source | states |
|---|---|---|
| JavaString.SplitSpec | rootbeerlib/src/main/java/com/scottyab/rootbeer/RootBeer.java:399 | `split` gives `[s]` when the separator is absent, even for the empty string, and otherwise separator-free tokens that, joined back, give the input without its trailing separators; the last token is non-empty once a separator occurred |
| JavaString.SplitOfJoin | rootbeerlib/src/main/java/com/scottyab/rootbeer/RootBeer.java:261 | splitting a join of several separator-free fields gives the fields back less the empty ones at the end (a trailing newline adds no line) |
| JavaString.SplitJoin | rootbeerlib/src/main/java/com/scottyab/rootbeer/RootBeer.java:399 | round trip: separator-free fields, the last non-empty when there are several, are recovered exactly by splitting their join |
| JavaString.RemoveSpec | rootbeerlib/src/main/java/com/scottyab/rootbeer/RootBeer.java:431-432 | `replace(x, "")` leaves no x, keeps the count of every other character and never lengthens the string |
| JavaString.RwSpellings | rootbeerlib/src/main/java/com/scottyab/rootbeer/RootBeer.java:439 | an option equals "rw" ignoring case exactly when it is one of "rw", "rW", "Rw", "RW" |
| JavaString.MissingCharNotContained | rootbeerlib/src/main/java/com/scottyab/rootbeer/RootBeer.java:326-329 | `contains` is false when a character of the sought string is absent |
| Signals.BinaryFoundPermutation | rootbeerlib/src/main/java/com/scottyab/rootbeer/RootBeer.java:223-240 | reordering the candidate directories does not change whether a binary is found |
| Signals.PackageListInstalled | rootbeerlib/src/main/java/com/scottyab/rootbeer/RootBeer.java:116-126 | the static list extended by the caller's non-empty extra names finds an installed app iff the static list or the extra names do |
| Signals.AnyInstalledPermutation | rootbeerlib/src/main/java/com/scottyab/rootbeer/RootBeer.java:288-305 | reordering the package list does not change the answer |
| Signals.ReadLines | rootbeerlib/src/main/java/com/scottyab/rootbeer/RootBeer.java:269-280 | a command output yields lines iff it was read and is non-empty (an empty stream makes `Scanner.next` throw); no line holds a newline |
| Signals.DangerousLineCases | rootbeerlib/src/main/java/com/scottyab/rootbeer/RootBeer.java:314-334 | a line is dangerous iff it contains "ro.debuggable" and "[1]", or "ro.secure" and "[0]" |
| Signals.DebuggableDetected | rootbeerlib/src/main/java/com/scottyab/rootbeer/RootBeer.java:324-335 | the `getprop` output "[ro.debuggable]: [1]" is detected |
| Signals.NotDebuggableIgnored | rootbeerlib/src/main/java/com/scottyab/rootbeer/RootBeer.java:324-335 | the `getprop` output "[ro.debuggable]: [0]" is not detected |
| Signals.InsecureLineDetected | rootbeerlib/src/main/java/com/scottyab/rootbeer/RootBeer.java:320-336 | one dangerous line among several, with a trailing newline, is enough |
| Signals.PropsFailClosed | rootbeerlib/src/main/java/com/scottyab/rootbeer/RootBeer.java:337-340 | the props check fails closed: no output, or an empty one, counts as dangerous |
| Signals.StripParens | rootbeerlib/src/main/java/com/scottyab/rootbeer/RootBeer.java:430-434 | the stripped options hold no parenthesis |
| Signals.StripParensIdempotent | rootbeerlib/src/main/java/com/scottyab/rootbeer/RootBeer.java:423-434 | stripping again for a second matching path changes nothing |
| Signals.ParenthesesStripped | rootbeerlib/src/main/java/com/scottyab/rootbeer/RootBeer.java:430-434 | "(options)" strips to options when options hold no parenthesis |
| JavaString.SplitCount | rootbeerlib/src/main/java/com/scottyab/rootbeer/RootBeer.java:399 | k spaces give at most k + 1 fields |
| Signals.FewSpacesNeverFlag | rootbeerlib/src/main/java/com/scottyab/rootbeer/RootBeer.java:399-406 | a line with fewer spaces than its layout needs (3 up to SDK 23, 5 above) never flags |
| Signals.WellFormedLine | rootbeerlib/src/main/java/com/scottyab/rootbeer/RootBeer.java:396-446 | a line of enough space-free fields flags iff the layout's mount-point field is sensitive and its options field grants write |
| Signals.OptionTokens | rootbeerlib/src/main/java/com/scottyab/rootbeer/RootBeer.java:437-444 | comma-free option tokens grant write iff one of them is "rw" ignoring case |
| Signals.LegacyFields | rootbeerlib/src/main/java/com/scottyab/rootbeer/RootBeer.java:415-421 | up to SDK 23, "dev point type options" flags iff point is sensitive and the options, parentheses and all, grant write |
| Signals.LegacyLine | rootbeerlib/src/main/java/com/scottyab/rootbeer/RootBeer.java:396-446 | up to SDK 23, "dev point type o1,o2,..." flags iff point is sensitive and some token is "rw" ignoring case |
| Signals.ModernFields | rootbeerlib/src/main/java/com/scottyab/rootbeer/RootBeer.java:415-434 | above SDK 23, "dev on point type fs (options)" flags iff point is sensitive and the unwrapped options grant write |
| Signals.ModernLine | rootbeerlib/src/main/java/com/scottyab/rootbeer/RootBeer.java:396-446 | above SDK 23, "dev on point type fs (o1,o2,...)" flags iff point is sensitive and some token is "rw" ignoring case |
| Signals.ModernLineFlagged | rootbeerlib/src/main/java/com/scottyab/rootbeer/RootBeer.java:415-444 | "... on /system type ext4 (rw,seclabel,relatime)" flags above SDK 23 whenever "/system" is sensitive |
| Signals.ReadOnlyLineIgnored | rootbeerlib/src/main/java/com/scottyab/rootbeer/RootBeer.java:437-444 | the same line mounted "(ro,seclabel,relatime)" never flags, whatever the sensitive paths |
| Signals.UpperCaseLineFlagged | rootbeerlib/src/main/java/com/scottyab/rootbeer/RootBeer.java:424-439 | "/SYSTEM ... (RW)" flags: mount point and option are compared ignoring case |
| Signals.LegacyLineFlagged | rootbeerlib/src/main/java/com/scottyab/rootbeer/RootBeer.java:418-444 | "/dev/block/x /system yaffs2 rw,relatime" flags at SDK 23 whenever "/system" is sensitive |
| Signals.DoubledSpaceShiftsFields | rootbeerlib/src/main/java/com/scottyab/rootbeer/RootBeer.java:399-421 | a doubled space yields an empty field and shifts the mount point, so the line does not flag |
| Signals.LegacyKeepsParentheses | rootbeerlib/src/main/java/com/scottyab/rootbeer/RootBeer.java:418-444 | up to SDK 23 the options are not stripped, so "(rw)" does not grant write |
| Signals.OneLineMount | rootbeerlib/src/main/java/com/scottyab/rootbeer/RootBeer.java:350-450 | a `mount` output of one non-empty line is positive iff that line flags |
| Signals.ModernMountFlagged | rootbeerlib/src/main/java/com/scottyab/rootbeer/RootBeer.java:350-450 | a `mount` output holding the modern read-write `/system` line is positive |
| Signals.LegacyMountFlagged | rootbeerlib/src/main/java/com/scottyab/rootbeer/RootBeer.java:350-450 | a `mount` output holding the legacy read-write `/system` line is positive |
| Signals.MountFailsOpen | rootbeerlib/src/main/java/com/scottyab/rootbeer/RootBeer.java:355-360 | the mount check fails open: no output, or an empty one, is negative |
| Signals.TestKeysAnywhere | rootbeerlib/src/main/java/com/scottyab/rootbeer/RootBeer.java:92-96 | any tag string containing "test-keys" is a test-keys build |
| Signals.ReleaseKeysNotTest | rootbeerlib/src/main/java/com/scottyab/rootbeer/RootBeer.java:92-96 | null tags and "release-keys" are not test-keys builds |
| Signals.SuCandidates | rootbeerlib/src/main/java/com/scottyab/rootbeer/RootBeer.java:518-521 | one candidate per directory |
| Signals.IsRooted | rootbeerlib/src/main/java/com/scottyab/rootbeer/RootBeer.java:50-55 | the verdict is true iff some signal of its nine is positive |
| Signals.IsRootedWithoutBusyBoxCheck | rootbeerlib/src/main/java/com/scottyab/rootbeer/RootBeer.java:64-66 | the deprecated verdict is the same nine-signal OR |
| Signals.IsRootedWithBusyBoxCheck | rootbeerlib/src/main/java/com/scottyab/rootbeer/RootBeer.java:77-82 | the busybox verdict is true iff some signal of its ten is positive |
| Signals.EvaluatedPrefix | rootbeerlib/src/main/java/com/scottyab/rootbeer/RootBeer.java:52-54 | short-circuit evaluation runs a prefix of the order whose signals are negative except possibly the last; the verdict is true iff that last one is positive, and a false verdict evaluates every signal |
| Signals.StopsAt | rootbeerlib/src/main/java/com/scottyab/rootbeer/RootBeer.java:52-54 | when the first positive signal is at position k, exactly the first k + 1 signals are evaluated and the verdict is true |
| Signals.RunsThrough | rootbeerlib/src/main/java/com/scottyab/rootbeer/RootBeer.java:52-54 | when every signal is negative, all are evaluated and the verdict is false |
| Signals.BusyBoxVerdict | rootbeerlib/src/main/java/com/scottyab/rootbeer/RootBeer.java:77-82 | the busybox verdict is the plain verdict OR the busybox probe |
| Signals.AnyHoldsPermutation | rootbeerlib/src/main/java/com/scottyab/rootbeer/RootBeer.java:50-55 | the verdict does not depend on the order of the signals, only the set evaluated does |
| Checks.RootBeer.constructor | rootbeerlib/src/main/java/com/scottyab/rootbeer/RootBeer.java:37-42 | a new checker for the given device, with logging on |
| Checks.RootBeer.SetLogging | rootbeerlib/src/main/java/com/scottyab/rootbeer/RootBeer.java:246-249 | the logging flag becomes the argument |
| Checks.RootBeer.DetectTestKeys | rootbeerlib/src/main/java/com/scottyab/rootbeer/RootBeer.java:92-96 | answers the test-keys signal |
| Checks.RootBeer.DetectRootManagementApps | rootbeerlib/src/main/java/com/scottyab/rootbeer/RootBeer.java:104-106 | answers the root-management-apps signal |
| Checks.RootBeer.DetectRootManagementAppsWith | rootbeerlib/src/main/java/com/scottyab/rootbeer/RootBeer.java:116-126 | true iff a known root-management app or an extra name is installed |
| Checks.RootBeer.DetectPotentiallyDangerousApps | rootbeerlib/src/main/java/com/scottyab/rootbeer/RootBeer.java:134-136 | answers the dangerous-apps signal |
| Checks.RootBeer.DetectPotentiallyDangerousAppsWith | rootbeerlib/src/main/java/com/scottyab/rootbeer/RootBeer.java:146-157 | true iff a known root-needing app or an extra name is installed |
| Checks.RootBeer.DetectRootCloakingApps | rootbeerlib/src/main/java/com/scottyab/rootbeer/RootBeer.java:166-168 | true iff a known cloaking app is installed or the native library loads but cannot be read |
| Checks.RootBeer.DetectRootCloakingAppsWith | rootbeerlib/src/main/java/com/scottyab/rootbeer/RootBeer.java:178-187 | true iff a known cloaking app or an extra name is installed |
| Checks.RootBeer.CheckForSuBinary | rootbeerlib/src/main/java/com/scottyab/rootbeer/RootBeer.java:194-196 | answers the su-binary signal |
| Checks.RootBeer.CheckForMagiskBinary | rootbeerlib/src/main/java/com/scottyab/rootbeer/RootBeer.java:204-206 | answers the magisk-binary signal |
| Checks.RootBeer.CheckForBusyBoxBinary | rootbeerlib/src/main/java/com/scottyab/rootbeer/RootBeer.java:214-216 | answers the busybox-binary signal |
| Checks.RootBeer.CheckForBinary | rootbeerlib/src/main/java/com/scottyab/rootbeer/RootBeer.java:223-240 | true iff some candidate directory holds the file; every directory is probed, in order, even after a hit (the ghost `probed` equals the whole list) |
| Checks.RootBeer.IsAnyPackageFromListInstalled | rootbeerlib/src/main/java/com/scottyab/rootbeer/RootBeer.java:288-305 | true iff some listed package is installed; every name is looked up, in order, even after a hit (the ghost `queried` equals the whole list) |
| Checks.RootBeer.CheckForDangerousProps | rootbeerlib/src/main/java/com/scottyab/rootbeer/RootBeer.java:312-341 | answers the dangerous-properties signal: some line is dangerous, or the output cannot be read; every line is scanned even after a hit (the ghost `scanned` equals the lines) |
| Checks.RootBeer.MatchDangerousProps | rootbeerlib/src/main/java/com/scottyab/rootbeer/RootBeer.java:325-334 | over the keys in any order, true iff some key and its bracketed bad value occur in the line; every key is tried (the ghost `tried` is the whole key set) |
| Checks.RootBeer.CheckForRWPaths | rootbeerlib/src/main/java/com/scottyab/rootbeer/RootBeer.java:350-450 | answers the read-write-mount signal: some line flags; false when the output cannot be read; a flagged line does not stop the scan (the ghost `scanned` equals the lines) |
| Checks.RootBeer.ScanMountLine | rootbeerlib/src/main/java/com/scottyab/rootbeer/RootBeer.java:399-446 | one `mount` line flags exactly as `LineFlagged` says; a line with too few fields is skipped, otherwise its mount point is compared with every sensitive path (the ghost `compared`) |
| Checks.RootBeer.HasRwOption | rootbeerlib/src/main/java/com/scottyab/rootbeer/RootBeer.java:437-444 | scanning the comma-split options until an "rw" token, ignoring case, answers exactly whether they grant write |
| Checks.RootBeer.CheckSuExists | rootbeerlib/src/main/java/com/scottyab/rootbeer/RootBeer.java:457-469 | true iff `which su` could be run and printed a line |
| Checks.RootBeer.CheckForNativeLibraryReadAccess | rootbeerlib/src/main/java/com/scottyab/rootbeer/RootBeer.java:483-491 | true iff the native logging switch links, which needs the library to be loaded |
| Checks.RootBeer.CanLoadNativeLibrary | rootbeerlib/src/main/java/com/scottyab/rootbeer/RootBeer.java:498-500 | true iff the native library was loaded |
| Checks.RootBeer.CheckForRootNative | rootbeerlib/src/main/java/com/scottyab/rootbeer/RootBeer.java:509-530 | answers the native-scan signal; false when the library is not loaded, either native call fails to link, or the scan finds nothing |

## Left out

- Process I/O. `getprop`, `mount` and `which su` are represented by the whole text they
  print, or `None` when the command cannot be started or its stream is null. Spawning,
  stream reading and `Process.destroy` are not modelled.
- Logging is not modelled: `QLog`, `QLog.LOGGING_LEVEL` and the `System.out` diagnostics.
  `SetLogging` only records the flag.
- Android and the JVM are oracles:
  - the package manager is `installed`;
  - `File.exists` is `fileExists`;
  - `Build.TAGS` is `buildTags`;
  - `Build.VERSION.SDK_INT` is `sdkInt`;
  - the native library is `NativeBridge`.

  What the native code does internally is not part of this model.
- `Const.java` is not part of this model. The candidate directories (`Const.getPaths()`) and
  the package and path lists are given as `Const` values, not their concrete contents.
- `equalsIgnoreCase` folds ASCII letters only. Java's Unicode case folding is left out.
- `MatchDangerousProps` takes the keys of the dangerous-property map in an arbitrary order,
  not `HashMap`'s iteration order. The answer does not depend on that order.
- Exceptions. Only the ones the source handles are modelled, and only as their effect:
  - a failed `getprop` makes the props check answer true;
  - a failed `mount` makes the mount check answer false;
  - a link failure makes the native check answer false.

  As written, the source does not compile. `CustomException` extends `Exception` (line 24),
  so it is a checked exception, and `propsReader` throws it at line 265 without a `throws`
  clause. The model follows the evident intent: any read failure reaches the handler of
  `checkForDangerousProps` (lines 337-340), which answers true.
- The verdicts `isRooted`, `isRootedWithoutBusyBoxCheck` and `isRootedWithBusyBoxCheck` are
  pure functions in `Signals`, not methods of `Checks.RootBeer`. They OR the signal
  predicates in the source's order, and each check method is proved to compute its
  predicate. Which checks a short-circuit OR actually calls is stated separately by
  `Evaluated`, `StopsAt` and `RunsThrough`.
- The `getprop` loop calls `MatchDangerousProps` for its inner key loop. The `mount` loop
  calls `ScanMountLine` for each line's body, and that calls `HasRwOption` for the option
  loop. Each behaves as the inlined loop does, except that the Java sets its one `result`
  variable directly while the helpers return a flag that the caller ORs in.
- The device is a snapshot, fixed for the checker's whole lifetime. The Java queries the
  package manager, the file system and the commands again on every call, so a device that
  changes between calls is not modelled.
- The native scan answers false whenever the native library could not be loaded or accessed,
  as its documentation at lines 506-507 says. Lines 524-529 call the logging switch inside
  the same `try` as the scan. So a library that loads but cannot be read answers false, and
  `RootNative` requires `readAccess` as well as `loaded`.
