/**
 * The root checker itself: one object per device, whose checks scan the candidate lists and
 * command outputs step by step. Every check is proved to answer exactly what the matching
 * specification predicate of `Signals` says, so the verdicts of `Signals` (OR-ed signals)
 * are what the checks combine to.
 */
module Checks {
  import opened Wrappers
  import opened JavaString
  import opened Host
  import opened Signals

  class RootBeer {
    /** The device the checks query (package manager, file system, commands, build). */
    const device: Device
    /** The static candidate lists. */
    const constants: Const
    /** Passed to the native library's logging switch; it changes no answer. */
    var loggingEnabled: bool

    constructor (device: Device, constants: Const)
      ensures this.device == device && this.constants == constants && loggingEnabled
    {
      this.device := device;
      this.constants := constants;
      loggingEnabled := true;
    }

    method SetLogging(logging: bool)
      modifies this
      ensures loggingEnabled == logging
    {
      loggingEnabled := logging;
    }

    // -------------------------------------------------------------------------
    // Individual checks

    /** The build tags are not null and contain "test-keys". */
    method DetectTestKeys() returns (result: bool)
      ensures result == Holds(constants, device, TestKeysSigned)
    {
      var buildTags := device.buildTags;
      result := buildTags.Some? && Contains(buildTags.value, "test-keys");
    }

    method DetectRootManagementApps() returns (result: bool)
      ensures result == Holds(constants, device, RootManagementApps)
    {
      result := DetectRootManagementAppsWith(None);
    }

    /** The known root-management apps, plus the caller's extra names, are searched. */
    method DetectRootManagementAppsWith(additional: Option<seq<string>>) returns (result: bool)
      ensures result <==> AnyInstalled(device.installed, constants.knownRootAppsPackages)
                          || (additional.Some? && AnyInstalled(device.installed, additional.value))
    {
      var packages := constants.knownRootAppsPackages;
      if additional.Some? && |additional.value| > 0 {
        packages := packages + additional.value;
      }
      var found, _ := IsAnyPackageFromListInstalled(packages);
      result := found;
      PackageListInstalled(device.installed, constants.knownRootAppsPackages, additional);
    }

    method DetectPotentiallyDangerousApps() returns (result: bool)
      ensures result == Holds(constants, device, PotentiallyDangerousApps)
    {
      result := DetectPotentiallyDangerousAppsWith(None);
    }

    /** The known apps that need root, plus the caller's extra names, are searched. */
    method DetectPotentiallyDangerousAppsWith(additional: Option<seq<string>>) returns (result: bool)
      ensures result <==> AnyInstalled(device.installed, constants.knownDangerousAppsPackages)
                          || (additional.Some? && AnyInstalled(device.installed, additional.value))
    {
      var packages := [];
      packages := packages + constants.knownDangerousAppsPackages;
      assert packages == constants.knownDangerousAppsPackages;
      if additional.Some? && |additional.value| > 0 {
        packages := packages + additional.value;
      }
      var found, _ := IsAnyPackageFromListInstalled(packages);
      result := found;
      PackageListInstalled(device.installed, constants.knownDangerousAppsPackages, additional);
    }

    /** A known cloaking app is installed, or the native library loads but cannot be read. */
    method DetectRootCloakingApps() returns (result: bool)
      ensures result == (AnyInstalled(device.installed, constants.knownRootCloakingPackages)
                         || CloakingInferred(device.native))
    {
      result := DetectRootCloakingAppsWith(None);
      if !result {
        var loaded := CanLoadNativeLibrary();
        if loaded {
          var readAccess := CheckForNativeLibraryReadAccess();
          result := !readAccess;
        }
      }
    }

    /** The known cloaking apps, plus the caller's extra names, are searched. */
    method DetectRootCloakingAppsWith(additional: Option<seq<string>>) returns (result: bool)
      ensures result <==> AnyInstalled(device.installed, constants.knownRootCloakingPackages)
                          || (additional.Some? && AnyInstalled(device.installed, additional.value))
    {
      var packages := constants.knownRootCloakingPackages;
      if additional.Some? && |additional.value| > 0 {
        packages := packages + additional.value;
      }
      var found, _ := IsAnyPackageFromListInstalled(packages);
      result := found;
      PackageListInstalled(device.installed, constants.knownRootCloakingPackages, additional);
    }

    method CheckForSuBinary() returns (result: bool)
      ensures result == Holds(constants, device, SuBinary)
    {
      var found, _ := CheckForBinary(BINARY_SU);
      result := found;
    }

    method CheckForMagiskBinary() returns (result: bool)
      ensures result == Holds(constants, device, MagiskBinary)
    {
      var found, _ := CheckForBinary(BINARY_MAGISK);
      result := found;
    }

    method CheckForBusyBoxBinary() returns (result: bool)
      ensures result == Holds(constants, device, BusyBoxBinary)
    {
      var found, _ := CheckForBinary(BINARY_BUSYBOX);
      result := found;
    }

    /**
     * Every candidate directory is probed, in order and with no early exit (`probed`); the
     * answer is whether any holds the file.
     */
    method CheckForBinary(filename: string) returns (result: bool, ghost probed: seq<string>)
      ensures result == BinaryFound(constants.paths, device.fileExists, filename)
      ensures probed == constants.paths
    {
      var pathsArray := constants.paths;
      result := false;
      probed := [];
      var i := 0;
      while i < |pathsArray|
        invariant 0 <= i <= |pathsArray|
        invariant probed == pathsArray[..i]
        invariant result <==> exists j :: 0 <= j < i && device.fileExists(pathsArray[j], filename)
      {
        if device.fileExists(pathsArray[i], filename) {
          result := true;
        }
        probed := probed + [pathsArray[i]];
        i := i + 1;
      }
      assert pathsArray[..i] == pathsArray;
    }

    /**
     * Every name is looked up, in order and with no early exit (`queried`); a name that is
     * not found is skipped.
     */
    method IsAnyPackageFromListInstalled(packages: seq<string>) returns (result: bool, ghost queried: seq<string>)
      ensures result == AnyInstalled(device.installed, packages)
      ensures queried == packages
    {
      result := false;
      queried := [];
      var i := 0;
      while i < |packages|
        invariant 0 <= i <= |packages|
        invariant queried == packages[..i]
        invariant result <==> exists j :: 0 <= j < i && device.installed(packages[j])
      {
        if device.installed(packages[i]) {
          result := true;
        }
        queried := queried + [packages[i]];
        i := i + 1;
      }
      assert packages[..i] == packages;
    }

    /**
     * Every `getprop` line is matched against every dangerous key; an unreadable output makes
     * the line loop throw, and the handler answers true.
     */
    method CheckForDangerousProps() returns (result: bool, ghost scanned: seq<string>)
      ensures result == DangerousPropsFound(device.getpropOutput)
      ensures ReadLines(device.getpropOutput).None? ==> result && scanned == []
      ensures ReadLines(device.getpropOutput).Some? ==> scanned == ReadLines(device.getpropOutput).value
    {
      result := false;
      scanned := [];
      var lines := ReadLines(device.getpropOutput);
      if lines.None? {
        return true, scanned;
      }
      var ls := lines.value;
      var i := 0;
      while i < |ls|
        invariant 0 <= i <= |ls|
        invariant scanned == ls[..i]
        invariant result <==> exists j :: 0 <= j < i && DangerousLine(ls[j])
      {
        var hit, _ := MatchDangerousProps(ls[i]);
        if hit {
          result := true;
        }
        scanned := scanned + [ls[i]];
        i := i + 1;
      }
      assert ls[..i] == ls;
    }

    /**
     * The inner loop of the props check: some dangerous key and its bad value occur in the
     * line. Every key is tried (`tried`), whatever was found before.
     */
    method MatchDangerousProps(line: string) returns (hit: bool, ghost tried: set<string>)
      ensures hit == DangerousLine(line)
      ensures tried == DangerousProps.Keys
    {
      var dangerousProps := DangerousProps;
      hit := false;
      var keys := dangerousProps.Keys;
      tried := {};
      while keys != {}
        invariant keys <= dangerousProps.Keys
        invariant tried == dangerousProps.Keys - keys
        invariant hit <==> exists key :: key in dangerousProps.Keys - keys && KeyHit(line, key)
        decreases |keys|
      {
        var key :| key in keys;
        if Contains(line, key) {
          var badValue := dangerousProps[key];
          badValue := "[" + badValue + "]";
          if Contains(line, badValue) {
            hit := true;
          }
        }
        assert dangerousProps.Keys - (keys - {key}) == (dangerousProps.Keys - keys) + {key};
        tried := tried + {key};
        keys := keys - {key};
      }
    }

    /**
     * Every `mount` line is scanned (`scanned`), whatever was found before; no output means
     * false.
     */
    method CheckForRWPaths() returns (result: bool, ghost scanned: seq<string>)
      ensures result == RWPathsFound(device.sdkInt, constants.pathsThatShouldNotBeWritable, device.mountOutput)
      ensures ReadLines(device.mountOutput).None? ==> !result && scanned == []
      ensures ReadLines(device.mountOutput).Some? ==> scanned == ReadLines(device.mountOutput).value
    {
      var sensitive := constants.pathsThatShouldNotBeWritable;
      result := false;
      scanned := [];
      var lines := ReadLines(device.mountOutput);
      if lines.None? {
        return false, scanned;
      }
      var sdkVersion := device.sdkInt;
      var ls := lines.value;
      var i := 0;
      while i < |ls|
        invariant 0 <= i <= |ls|
        invariant scanned == ls[..i]
        invariant result <==> exists j :: 0 <= j < i && LineFlagged(sdkVersion, sensitive, ls[j])
      {
        var line := ls[i];
        scanned := scanned + [line];
        var flagged, _ := ScanMountLine(sdkVersion, sensitive, line);
        if flagged {
          result := true;
        }
        i := i + 1;
      }
      assert ls[..i] == ls;
    }

    /**
     * The body of the `mount` line loop: a line with too few fields is skipped; otherwise its
     * mount point is compared with every sensitive path (`compared`), and on each match the
     * options are split and scanned until an "rw" is found.
     */
    method ScanMountLine(sdkVersion: int, sensitive: seq<string>, line: string)
      returns (flagged: bool, ghost compared: seq<string>)
      ensures flagged == LineFlagged(sdkVersion, sensitive, line)
      ensures compared == (if |Split(line, ' ')| >= MinFields(LayoutOf(sdkVersion)) then sensitive else [])
    {
      flagged := false;
      compared := [];
      var args := Split(line, ' ');
      if (sdkVersion <= SDK_M && |args| < 4) || (sdkVersion > SDK_M && |args| < 6) {
        return;
      }
      var mountPoint, mountOptions;
      if sdkVersion > SDK_M {
        mountPoint := args[2];
        mountOptions := args[5];
      } else {
        mountPoint := args[1];
        mountOptions := args[3];
      }
      ghost var layout := LayoutOf(sdkVersion);
      var k := 0;
      while k < |sensitive|
        invariant 0 <= k <= |sensitive|
        invariant compared == sensitive[..k]
        invariant layout == Modern ==> StripParens(mountOptions) == MountOptions(layout, args)
        invariant layout == Legacy ==> mountOptions == MountOptions(layout, args)
        invariant flagged <==> (exists p :: 0 <= p < k && EqualsIgnoreCase(mountPoint, sensitive[p]))
                               && GrantsWrite(MountOptions(layout, args))
      {
        var pathToCheck := sensitive[k];
        if EqualsIgnoreCase(mountPoint, pathToCheck) {
          if sdkVersion > SDK_M {
            StripParensIdempotent(args[5]);
            mountOptions := StripParens(mountOptions);
          }
          var rw := HasRwOption(mountOptions);
          if rw {
            flagged := true;
          }
        }
        compared := compared + [pathToCheck];
        k := k + 1;
      }
      assert sensitive[..k] == sensitive;
    }

    /** The options are split on commas and scanned until a token equals "rw", ignoring case. */
    method HasRwOption(mountOptions: string) returns (rw: bool)
      ensures rw == GrantsWrite(mountOptions)
    {
      rw := false;
      var options := Split(mountOptions, ',');
      var t := 0;
      while t < |options|
        invariant 0 <= t <= |options|
        invariant !rw
        invariant forall u :: 0 <= u < t ==> !EqualsIgnoreCase(options[u], "rw")
      {
        if EqualsIgnoreCase(options[t], "rw") {
          rw := true;
          break;
        }
        t := t + 1;
      }
    }

    /** `which su` printed a line; a command that cannot be started answers false. */
    method CheckSuExists() returns (result: bool)
      ensures result == Holds(constants, device, SuExists)
    {
      match device.whichSuOutput
      case None =>
        result := false;
      case Some(output) =>
        result := output != "";
    }

    /** The logging switch of the native library links (a cloaking layer makes it fail). */
    method CheckForNativeLibraryReadAccess() returns (result: bool)
      ensures result == (device.native.loaded && device.native.readAccess)
    {
      result := device.native.loaded && device.native.readAccess;
    }

    method CanLoadNativeLibrary() returns (result: bool)
      ensures result == device.native.loaded
    {
      result := device.native.loaded;
    }

    /**
     * The native scan of every candidate directory followed by "su"; false when the library
     * did not load or either native call fails to link.
     */
    method CheckForRootNative() returns (result: bool)
      ensures result == RootNative(constants.paths, device.native)
      ensures !device.native.loaded ==> !result
    {
      var loaded := CanLoadNativeLibrary();
      if !loaded {
        return false;
      }
      var paths := constants.paths;
      var checkPaths := new string[|paths|];
      var i := 0;
      while i < checkPaths.Length
        invariant 0 <= i <= checkPaths.Length
        invariant forall j :: 0 <= j < i ==> checkPaths[j] == paths[j] + BINARY_SU
      {
        checkPaths[i] := paths[i] + BINARY_SU;
        i := i + 1;
      }
      assert checkPaths[..] == SuCandidates(paths);
      if !device.native.readAccess {
        // the logging call inside the try block fails to link
        return false;
      }
      match device.native.checkForRoot(checkPaths[..])
      case None =>
        result := false;
      case Some(hits) =>
        result := hits > 0;
    }
  }
}
