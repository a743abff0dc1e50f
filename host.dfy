/**
 * What the detection checks read from the device, as values and oracles: the package
 * registry, the file system, the text printed by `getprop`, `mount` and `which su`, the
 * build tags and SDK level, and the native bridge. Also the static configuration lists.
 */
module Host {
  import opened Wrappers

  /** Binary names probed on the candidate paths. */
  const BINARY_SU := "su"
  const BINARY_BUSYBOX := "busybox"
  const BINARY_MAGISK := "magisk"

  /** `android.os.Build.VERSION_CODES.M` (Android 6, Marshmallow). */
  const SDK_M := 23

  /**
   * The native library. `loaded` is `wasNativeLibraryLoaded()`; `readAccess` says that
   * `setLogDebugMessages` would link on the loaded library (it throws `UnsatisfiedLinkError`
   * when a cloaking layer blocks reading the library); it means nothing when `loaded` is
   * false, where every native call fails. `checkForRoot` gives the hit count for a list of
   * full paths, or `None` when the call throws `UnsatisfiedLinkError`.
   */
  datatype NativeBridge = NativeBridge(
    loaded: bool,
    readAccess: bool,
    checkForRoot: seq<string> -> Option<int>)

  /**
   * The device. Each `Option<string>` is the whole standard output of a command, `None`
   * when the command cannot be started (or its stream is null); `buildTags` is
   * `Build.TAGS`, `None` when null.
   */
  datatype Device = Device(
    installed: string -> bool,
    fileExists: (string, string) -> bool,
    getpropOutput: Option<string>,
    mountOutput: Option<string>,
    whichSuOutput: Option<string>,
    sdkInt: int,
    buildTags: Option<string>,
    native: NativeBridge)

  /** The static lists of the library's constants class. */
  datatype Const = Const(
    paths: seq<string>,
    knownRootAppsPackages: seq<string>,
    knownDangerousAppsPackages: seq<string>,
    knownRootCloakingPackages: seq<string>,
    pathsThatShouldNotBeWritable: seq<string>)
}
