/**
 * The meaning of every root-detection signal as a pure function of the device, and the
 * facts about them: what a mount line or a property line must look like to count,
 * independence from the order of the candidate lists, and the short-circuit verdict.
 */
module Signals {
  import opened Wrappers
  import opened JavaString
  import opened Host

  // ---------------------------------------------------------------------------
  // Binary probe

  /** Some candidate directory holds a file called `name`. */
  predicate BinaryFound(paths: seq<string>, fileExists: (string, string) -> bool, name: string) {
    exists i :: 0 <= i < |paths| && fileExists(paths[i], name)
  }

  /** Reordering the candidate directories does not change the answer. */
  lemma BinaryFoundPermutation(p: seq<string>, q: seq<string>, fileExists: (string, string) -> bool, name: string)
    requires multiset(p) == multiset(q)
    ensures BinaryFound(p, fileExists, name) == BinaryFound(q, fileExists, name)
  {
    forall p: seq<string>, q: seq<string> | multiset(p) == multiset(q) && BinaryFound(p, fileExists, name)
      ensures BinaryFound(q, fileExists, name)
    {
      var i :| 0 <= i < |p| && fileExists(p[i], name);
      assert p[i] in multiset(q);
      var j :| 0 <= j < |q| && q[j] == p[i];
    }
  }

  // ---------------------------------------------------------------------------
  // Package registry

  /** Some name of the list is installed. */
  predicate AnyInstalled(installed: string -> bool, names: seq<string>) {
    exists i :: 0 <= i < |names| && installed(names[i])
  }

  /**
   * The list a package check queries: the static list, followed by the caller's extra
   * names when that array is neither null nor empty.
   */
  function PackageList(known: seq<string>, additional: Option<seq<string>>): seq<string> {
    if additional.Some? && |additional.value| > 0 then known + additional.value else known
  }

  /** The extended list finds an installed app iff the static list or the extra names do. */
  lemma PackageListInstalled(installed: string -> bool, known: seq<string>, additional: Option<seq<string>>)
    ensures AnyInstalled(installed, PackageList(known, additional))
        <==> AnyInstalled(installed, known) || (additional.Some? && AnyInstalled(installed, additional.value))
  {
    if additional.Some? && |additional.value| > 0 {
      var all := known + additional.value;
      if AnyInstalled(installed, all) {
        var i :| 0 <= i < |all| && installed(all[i]);
        if i >= |known| {
          assert all[i] == additional.value[i - |known|];
        }
      }
      if AnyInstalled(installed, known) {
        var i :| 0 <= i < |known| && installed(known[i]);
        assert all[i] == known[i];
      }
      if AnyInstalled(installed, additional.value) {
        var i :| 0 <= i < |additional.value| && installed(additional.value[i]);
        assert all[|known| + i] == additional.value[i];
      }
    }
  }

  /** Reordering the package list does not change the answer. */
  lemma AnyInstalledPermutation(installed: string -> bool, p: seq<string>, q: seq<string>)
    requires multiset(p) == multiset(q)
    ensures AnyInstalled(installed, p) == AnyInstalled(installed, q)
  {
    forall p: seq<string>, q: seq<string> | multiset(p) == multiset(q) && AnyInstalled(installed, p)
      ensures AnyInstalled(installed, q)
    {
      var i :| 0 <= i < |p| && installed(p[i]);
      assert p[i] in multiset(q);
      var j :| 0 <= j < |q| && q[j] == p[i];
    }
  }

  // ---------------------------------------------------------------------------
  // Command output

  /**
   * The lines of a command's output as its reader returns them: `None` when the command
   * could not be run, and also when it printed nothing (reading the whole stream with
   * `Scanner.next()` throws on an empty stream); otherwise the text split on newlines.
   */
  function ReadLines(output: Option<string>): (r: Option<seq<string>>)
    ensures r.Some? <==> output.Some? && output.value != ""
    ensures r.Some? ==> NoSeparator(r.value, '\n')
  {
    if output.Some? && output.value != "" then SplitSpec(output.value, '\n'); Some(Split(output.value, '\n'))
    else None
  }

  // ---------------------------------------------------------------------------
  // Dangerous properties

  /** Property keys and the values that reveal a debuggable or insecure build. */
  const DangerousProps: map<string, string> := map["ro.debuggable" := "1", "ro.secure" := "0"]

  /** The line mentions the dangerous key and, anywhere, that key's bad value in brackets. */
  predicate KeyHit(line: string, key: string) {
    key in DangerousProps && Contains(line, key) && Contains(line, "[" + DangerousProps[key] + "]")
  }

  /** Some dangerous key hits the line. */
  predicate DangerousLine(line: string) {
    exists key :: key in DangerousProps && KeyHit(line, key)
  }

  /**
   * The `getprop` check: positive when the output cannot be read (fail-closed) and
   * otherwise when some line is dangerous.
   */
  predicate DangerousPropsFound(getpropOutput: Option<string>) {
    match ReadLines(getpropOutput)
    case None => true
    case Some(lines) => exists i :: 0 <= i < |lines| && DangerousLine(lines[i])
  }

  /** The two dangerous combinations, spelled out. */
  lemma DangerousLineCases(line: string)
    ensures DangerousLine(line)
        <==> ((Contains(line, "ro.debuggable") && Contains(line, "[1]"))
              || (Contains(line, "ro.secure") && Contains(line, "[0]")))
  {
    assert "ro.debuggable" in DangerousProps && "ro.secure" in DangerousProps;
    assert "[" + DangerousProps["ro.debuggable"] + "]" == "[1]";
    assert "[" + DangerousProps["ro.secure"] + "]" == "[0]";
  }

  /** `getprop` printing a debuggable build is detected. */
  lemma DebuggableDetected()
    ensures DangerousPropsFound(Some("[ro.debuggable]: [1]"))
  {
    var on := "[ro.debuggable]: [1]";
    assert ReadLines(Some(on)) == Some([on]) by {
      assert '\n' !in on;
    }
    assert DangerousLine(on) by {
      assert Contains(on, "ro.debuggable") by {
        assert on[1..14] == "ro.debuggable";
        assert OccursAt(on, "ro.debuggable", 1);
      }
      assert Contains(on, "[1]") by {
        assert OccursAt(on, "[1]", 17);
      }
      DangerousLineCases(on);
    }
    assert [on][0] == on;
  }

  /** The same key set to 0 alone is not dangerous. */
  lemma NotDebuggableIgnored()
    ensures !DangerousPropsFound(Some("[ro.debuggable]: [0]"))
  {
    var off := "[ro.debuggable]: [0]";
    assert ReadLines(Some(off)) == Some([off]) by {
      assert '\n' !in off;
    }
    assert !DangerousLine(off) by {
      MissingCharNotContained(off, "[1]", 1);
      MissingCharNotContained(off, "ro.secure", 3);
      DangerousLineCases(off);
    }
  }

  /** One dangerous line among several is enough. */
  lemma InsecureLineDetected()
    ensures DangerousPropsFound(Some(Join(["[ro.secure]: [0]", "[ro.debuggable]: [0]", ""], '\n')))
  {
    var secure := "[ro.secure]: [0]";
    var lines := ["[ro.secure]: [0]", "[ro.debuggable]: [0]", ""];
    assert ReadLines(Some(Join(lines, '\n'))) == Some(lines[..2]) by {
      SplitOfJoin(lines, '\n');
      assert Join(lines, '\n') != "";
      assert DropTrailingEmpty(lines) == lines[..2];
    }
    assert DangerousLine(secure) by {
      assert Contains(secure, "ro.secure") by {
        assert OccursAt(secure, "ro.secure", 1);
      }
      assert Contains(secure, "[0]") by {
        assert OccursAt(secure, "[0]", 13);
      }
      DangerousLineCases(secure);
    }
    assert lines[..2][0] == secure;
  }

  /** The props check fails closed: no output, or an empty one, counts as dangerous. */
  lemma PropsFailClosed(getpropOutput: Option<string>)
    requires getpropOutput.None? || getpropOutput == Some("")
    ensures DangerousPropsFound(getpropOutput)
  {
  }

  // ---------------------------------------------------------------------------
  // Mount table

  /** The two layouts of a `mount` line. */
  datatype Layout =
    | Legacy  // <fs_spec_path> <fs_file> <fs_spec> <fs_mntopts>
    | Modern  // <fs_spec> on <fs_file> type <fs_vfs_type> (<fs_mntopts>)

  /** Modern above Marshmallow, legacy up to and including it. */
  function LayoutOf(sdkInt: int): Layout {
    if sdkInt > SDK_M then Modern else Legacy
  }

  function MinFields(layout: Layout): nat {
    if layout == Modern then 6 else 4
  }

  function MountPoint(layout: Layout, fields: seq<string>): string
    requires |fields| >= MinFields(layout)
  {
    if layout == Modern then fields[2] else fields[1]
  }

  /** Every opening and then every closing parenthesis removed. */
  function StripParens(options: string): (r: string)
    ensures '(' !in r && ')' !in r
  {
    RemoveSpec(options, '(');
    RemoveKeepsAbsent(Remove(options, '('), ')', '(');
    RemoveSpec(Remove(options, '('), ')');
    Remove(Remove(options, '('), ')')
  }

  /** Stripping twice is stripping once, so repeating the strip per matching path is harmless. */
  lemma StripParensIdempotent(options: string)
    ensures StripParens(StripParens(options)) == StripParens(options)
  {
    var once := StripParens(options);
    RemoveAbsent(once, '(');
    RemoveAbsent(once, ')');
  }

  /** The options field, with its parentheses removed in the modern layout. */
  function MountOptions(layout: Layout, fields: seq<string>): string
    requires |fields| >= MinFields(layout)
  {
    if layout == Modern then StripParens(fields[5]) else fields[3]
  }

  /** Some comma-separated option is "rw", ignoring case. */
  predicate GrantsWrite(options: string) {
    var tokens := Split(options, ',');
    exists i :: 0 <= i < |tokens| && EqualsIgnoreCase(tokens[i], "rw")
  }

  /** The mount point is one of the sensitive paths, ignoring case. */
  predicate IsSensitive(mountPoint: string, sensitive: seq<string>) {
    exists i :: 0 <= i < |sensitive| && EqualsIgnoreCase(mountPoint, sensitive[i])
  }

  /**
   * A `mount` line reveals a sensitive path mounted read-write: it has enough space-split
   * fields for the layout, its mount point is sensitive and its options grant write.
   */
  predicate LineFlagged(sdkInt: int, sensitive: seq<string>, line: string) {
    var fields := Split(line, ' ');
    var layout := LayoutOf(sdkInt);
    |fields| >= MinFields(layout)
    && IsSensitive(MountPoint(layout, fields), sensitive)
    && GrantsWrite(MountOptions(layout, fields))
  }

  /** The `mount` check: negative when the output cannot be read, else some line flags. */
  predicate RWPathsFound(sdkInt: int, sensitive: seq<string>, mountOutput: Option<string>) {
    match ReadLines(mountOutput)
    case None => false
    case Some(lines) => exists i :: 0 <= i < |lines| && LineFlagged(sdkInt, sensitive, lines[i])
  }

  /**
   * A line with fewer spaces than the layout needs (three up to Marshmallow, five above)
   * is skipped: it never flags.
   */
  lemma FewSpacesNeverFlag(sdkInt: int, sensitive: seq<string>, line: string)
    requires multiset(line)[' '] + 1 < MinFields(LayoutOf(sdkInt))
    ensures !LineFlagged(sdkInt, sensitive, line)
  {
    SplitCount(line, ' ');
  }

  /** The modern layout wraps the options in parentheses, which are stripped. */
  lemma ParenthesesStripped(options: string)
    requires '(' !in options && ')' !in options
    ensures StripParens("(" + options + ")") == options
  {
    assert "(" + options + ")" == "(" + (options + ")");
    RemoveConcat("(", options + ")", '(');
    RemoveAbsent(options + ")", '(');
    RemoveConcat(options, ")", ')');
    RemoveAbsent(options, ')');
  }

  /**
   * A line made of enough space-free fields, joined by single spaces, flags exactly when
   * the layout's mount-point field is sensitive and its options field grants write.
   */
  lemma WellFormedLine(sdkInt: int, sensitive: seq<string>, fields: seq<string>)
    requires |fields| >= MinFields(LayoutOf(sdkInt))
    requires NoSeparator(fields, ' ') && fields[|fields| - 1] != ""
    ensures LineFlagged(sdkInt, sensitive, Join(fields, ' '))
        <==> (IsSensitive(MountPoint(LayoutOf(sdkInt), fields), sensitive)
              && GrantsWrite(MountOptions(LayoutOf(sdkInt), fields)))
  {
    SplitJoin(fields, ' ');
  }

  /** Options made of comma-free tokens grant write exactly when one token is "rw", ignoring case. */
  lemma OptionTokens(tokens: seq<string>)
    requires |tokens| >= 1 && NoSeparator(tokens, ',') && tokens[|tokens| - 1] != ""
    ensures GrantsWrite(Join(tokens, ','))
        <==> exists i :: 0 <= i < |tokens| && EqualsIgnoreCase(tokens[i], "rw")
  {
    SplitJoin(tokens, ',');
  }

  /** Option tokens as `mount` prints them: non-empty last, no comma, space or parenthesis. */
  predicate PlainTokens(tokens: seq<string>) {
    |tokens| >= 1 && tokens[|tokens| - 1] != ""
    && forall i :: 0 <= i < |tokens| ==>
         (',' !in tokens[i] && ' ' !in tokens[i] && '(' !in tokens[i] && ')' !in tokens[i])
  }

  /** A space-free field as `mount` prints it. */
  predicate PlainField(f: string) {
    f != "" && ' ' !in f
  }

  /**
   * Up to Marshmallow, a line "<device> <mount point> <type> <options>" flags exactly when
   * the mount point is sensitive and the options, taken as they stand, grant write.
   */
  lemma LegacyFields(sdkInt: int, sensitive: seq<string>, device: string, point: string, fsType: string, options: string)
    requires sdkInt <= SDK_M
    requires PlainField(device) && PlainField(point) && PlainField(fsType) && PlainField(options)
    ensures LineFlagged(sdkInt, sensitive, Join([device, point, fsType, options], ' '))
        <==> (IsSensitive(point, sensitive) && GrantsWrite(options))
  {
    var fields := [device, point, fsType, options];
    assert MountPoint(Legacy, fields) == point && MountOptions(Legacy, fields) == options;
    WellFormedLine(sdkInt, sensitive, fields);
  }

  /**
   * Up to Marshmallow, a line "<device> <mount point> <type> <options>" flags exactly when
   * the mount point is sensitive and one option token is "rw" in some case.
   */
  lemma LegacyLine(sdkInt: int, sensitive: seq<string>, device: string, point: string, fsType: string, tokens: seq<string>)
    requires sdkInt <= SDK_M
    requires PlainField(device) && PlainField(point) && PlainField(fsType) && PlainTokens(tokens)
    ensures LineFlagged(sdkInt, sensitive, Join([device, point, fsType, Join(tokens, ',')], ' '))
        <==> (IsSensitive(point, sensitive)
              && exists i :: 0 <= i < |tokens| && EqualsIgnoreCase(tokens[i], "rw"))
  {
    JoinAvoids(tokens, ',', ' ');
    JoinNonEmpty(tokens, ',');
    LegacyFields(sdkInt, sensitive, device, point, fsType, Join(tokens, ','));
    OptionTokens(tokens);
  }

  /**
   * Above Marshmallow, a line "<device> on <mount point> type <type> (<options>)" flags
   * exactly when the mount point is sensitive and the options grant write.
   */
  lemma ModernFields(sdkInt: int, sensitive: seq<string>, device: string, point: string, fsType: string, options: string)
    requires sdkInt > SDK_M
    requires PlainField(device) && PlainField(point) && PlainField(fsType)
    requires ' ' !in options && '(' !in options && ')' !in options
    ensures LineFlagged(sdkInt, sensitive, Join([device, "on", point, "type", fsType, "(" + options + ")"], ' '))
        <==> (IsSensitive(point, sensitive) && GrantsWrite(options))
  {
    var wrapped := "(" + options + ")";
    var fields := [device, "on", point, "type", fsType, wrapped];
    assert NoSeparator(fields, ' ') by {
      assert wrapped == "(" + (options + ")");
    }
    assert MountOptions(Modern, fields) == options by {
      ParenthesesStripped(options);
    }
    WellFormedLine(sdkInt, sensitive, fields);
  }

  /**
   * Above Marshmallow, a line "<device> on <mount point> type <type> (<options>)" flags
   * exactly when the mount point is sensitive and one option token is "rw" in some case.
   */
  lemma ModernLine(sdkInt: int, sensitive: seq<string>, device: string, point: string, fsType: string, tokens: seq<string>)
    requires sdkInt > SDK_M
    requires PlainField(device) && PlainField(point) && PlainField(fsType) && PlainTokens(tokens)
    ensures LineFlagged(sdkInt, sensitive, Join([device, "on", point, "type", fsType, "(" + Join(tokens, ',') + ")"], ' '))
        <==> (IsSensitive(point, sensitive)
              && exists i :: 0 <= i < |tokens| && EqualsIgnoreCase(tokens[i], "rw"))
  {
    var options := Join(tokens, ',');
    JoinAvoids(tokens, ',', ' ');
    JoinAvoids(tokens, ',', '(');
    JoinAvoids(tokens, ',', ')');
    ModernFields(sdkInt, sensitive, device, point, fsType, options);
    OptionTokens(tokens);
  }

  /** Above Marshmallow, "... /system type ext4 (rw,seclabel,relatime)" flags once "/system" is sensitive. */
  lemma ModernLineFlagged(sensitive: seq<string>)
    requires "/system" in sensitive
    ensures LineFlagged(SDK_M + 1, sensitive,
                        Join(["/dev/block/x", "on", "/system", "type", "ext4", "(" + Join(["rw", "seclabel", "relatime"], ',') + ")"], ' '))
  {
    var tokens := ["rw", "seclabel", "relatime"];
    assert PlainTokens(tokens);
    var k :| 0 <= k < |sensitive| && sensitive[k] == "/system";
    assert EqualsIgnoreCase("/system", sensitive[k]);
    assert EqualsIgnoreCase(tokens[0], "rw");
    ModernLine(SDK_M + 1, sensitive, "/dev/block/x", "/system", "ext4", tokens);
  }

  /** The same line mounted "(ro,seclabel,relatime)" does not flag. */
  lemma ReadOnlyLineIgnored(sensitive: seq<string>)
    ensures !LineFlagged(SDK_M + 1, sensitive,
                         Join(["/dev/block/x", "on", "/system", "type", "ext4", "(" + Join(["ro", "seclabel", "relatime"], ',') + ")"], ' '))
  {
    var tokens := ["ro", "seclabel", "relatime"];
    assert PlainTokens(tokens);
    forall i | 0 <= i < |tokens| ensures !EqualsIgnoreCase(tokens[i], "rw") {
      RwSpellings(tokens[i]);
    }
    ModernLine(SDK_M + 1, sensitive, "/dev/block/x", "/system", "ext4", tokens);
  }

  /** A `mount` output of one non-empty line flags exactly when that line does. */
  lemma OneLineMount(sdkInt: int, sensitive: seq<string>, line: string)
    requires line != "" && '\n' !in line
    ensures RWPathsFound(sdkInt, sensitive, Some(line)) == LineFlagged(sdkInt, sensitive, line)
  {
    assert ReadLines(Some(line)) == Some([line]);
    assert [line][0] == line;
  }

  /** A `mount` output whose only line is the modern read-write `/system` line is positive. */
  lemma ModernMountFlagged(sensitive: seq<string>)
    requires "/system" in sensitive
    ensures RWPathsFound(SDK_M + 1, sensitive,
                         Some(Join(["/dev/block/x", "on", "/system", "type", "ext4", "(" + Join(["rw", "seclabel", "relatime"], ',') + ")"], ' ')))
  {
    var tokens := ["rw", "seclabel", "relatime"];
    JoinAvoids(tokens, ',', '\n');
    var fields := ["/dev/block/x", "on", "/system", "type", "ext4", "(" + Join(tokens, ',') + ")"];
    JoinAvoids(fields, ' ', '\n');
    JoinNonEmpty(fields, ' ');
    ModernLineFlagged(sensitive);
    OneLineMount(SDK_M + 1, sensitive, Join(fields, ' '));
  }

  /** A `mount` output whose only line is the legacy read-write `/system` line is positive. */
  lemma LegacyMountFlagged(sensitive: seq<string>)
    requires "/system" in sensitive
    ensures RWPathsFound(SDK_M, sensitive, Some(Join(["/dev/block/x", "/system", "yaffs2", Join(["rw", "relatime"], ',')], ' ')))
  {
    var tokens := ["rw", "relatime"];
    JoinAvoids(tokens, ',', '\n');
    JoinNonEmpty(tokens, ',');
    var fields := ["/dev/block/x", "/system", "yaffs2", Join(tokens, ',')];
    JoinAvoids(fields, ' ', '\n');
    JoinNonEmpty(fields, ' ');
    LegacyLineFlagged(sensitive);
    OneLineMount(SDK_M, sensitive, Join(fields, ' '));
  }

  /** The `mount` check fails open: no output, or an empty one, is negative. */
  lemma MountFailsOpen(sdkInt: int, sensitive: seq<string>, mountOutput: Option<string>)
    requires mountOutput.None? || mountOutput == Some("")
    ensures !RWPathsFound(sdkInt, sensitive, mountOutput)
  {
  }

  /** The legacy line "/dev/block/x /system yaffs2 rw,relatime" flags up to Marshmallow. */
  lemma LegacyLineFlagged(sensitive: seq<string>)
    requires "/system" in sensitive
    ensures LineFlagged(SDK_M, sensitive, Join(["/dev/block/x", "/system", "yaffs2", Join(["rw", "relatime"], ',')], ' '))
  {
    var tokens := ["rw", "relatime"];
    assert PlainTokens(tokens);
    var k :| 0 <= k < |sensitive| && sensitive[k] == "/system";
    assert EqualsIgnoreCase("/system", sensitive[k]);
    assert EqualsIgnoreCase(tokens[0], "rw");
    LegacyLine(SDK_M, sensitive, "/dev/block/x", "/system", "yaffs2", tokens);
  }

  /** Mount point and option are compared ignoring case: "/SYSTEM ... (RW)" flags. */
  lemma UpperCaseLineFlagged(sensitive: seq<string>)
    requires "/system" in sensitive
    ensures LineFlagged(SDK_M + 1, sensitive, Join(["/dev/block/x", "on", "/SYSTEM", "type", "ext4", "(" + Join(["RW"], ',') + ")"], ' '))
  {
    var tokens := ["RW"];
    assert PlainTokens(tokens);
    var k :| 0 <= k < |sensitive| && sensitive[k] == "/system";
    assert EqualsIgnoreCase("/SYSTEM", sensitive[k]);
    assert EqualsIgnoreCase(tokens[0], "rw");
    ModernLine(SDK_M + 1, sensitive, "/dev/block/x", "/SYSTEM", "ext4", tokens);
  }

  /**
   * Splitting on single spaces: a doubled space gives an empty field and shifts the rest,
   * so the mount point is read from the wrong place and the line does not flag.
   */
  lemma DoubledSpaceShiftsFields()
    ensures !LineFlagged(SDK_M, ["/system"], Join(["/dev/block/x", "", "/system", "yaffs2", "rw"], ' '))
  {
    WellFormedLine(SDK_M, ["/system"], ["/dev/block/x", "", "/system", "yaffs2", "rw"]);
    assert !EqualsIgnoreCase("", "/system");
  }

  /** Up to Marshmallow the options keep their parentheses, so "(rw)" is not "rw". */
  lemma LegacyKeepsParentheses()
    ensures !LineFlagged(SDK_M, ["/system"], Join(["/dev/block/x", "/system", "ext4", "(rw)"], ' '))
  {
    WellFormedLine(SDK_M, ["/system"], ["/dev/block/x", "/system", "ext4", "(rw)"]);
    assert Split("(rw)", ',') == ["(rw)"];
    RwSpellings("(rw)");
  }

  // ---------------------------------------------------------------------------
  // `which su`, build tags, native bridge

  /** `which su` printed a first line: its output is not empty. */
  predicate SuLocated(whichSuOutput: Option<string>) {
    whichSuOutput.Some? && whichSuOutput.value != ""
  }

  /** `Build.TAGS` is not null and contains "test-keys". */
  predicate TestKeys(buildTags: Option<string>) {
    buildTags.Some? && Contains(buildTags.value, "test-keys")
  }

  /** Any tag string with "test-keys" somewhere in it is a test-keys build. */
  lemma TestKeysAnywhere(before: string, after: string)
    ensures TestKeys(Some(before + "test-keys" + after))
  {
    var tags := before + "test-keys" + after;
    assert tags[|before|..|before| + |"test-keys"|] == "test-keys";
    assert OccursAt(tags, "test-keys", |before|);
  }

  /** A null tag string and a "release-keys" build are not test-keys builds. */
  lemma ReleaseKeysNotTest()
    ensures !TestKeys(None) && !TestKeys(Some("release-keys"))
  {
    MissingCharNotContained("release-keys", "test-keys", 0);
  }

  /** Each candidate directory followed by the su binary name. */
  function SuCandidates(paths: seq<string>): (r: seq<string>)
    ensures |r| == |paths|
  {
    seq(|paths|, i requires 0 <= i < |paths| => paths[i] + BINARY_SU)
  }

  /**
   * The native scan: the library is loaded, the logging call links, and the scan of the
   * su candidates links and reports at least one hit.
   */
  predicate RootNative(paths: seq<string>, native: NativeBridge) {
    native.loaded && native.readAccess
    && match native.checkForRoot(SuCandidates(paths))
       case None => false
       case Some(hits) => hits > 0
  }

  /** A library that loads but cannot be read reveals a cloaking layer. */
  predicate CloakingInferred(native: NativeBridge) {
    native.loaded && !native.readAccess
  }

  // ---------------------------------------------------------------------------
  // Aggregation

  /** The signals a verdict combines. */
  datatype Signal =
    | RootManagementApps | PotentiallyDangerousApps | SuBinary | BusyBoxBinary
    | DangerousProperties | RWPaths | TestKeysSigned | SuExists | RootNativeScan | MagiskBinary

  /** Whether a signal is positive on the device. */
  predicate Holds(c: Const, d: Device, s: Signal) {
    match s
    case RootManagementApps => AnyInstalled(d.installed, c.knownRootAppsPackages)
    case PotentiallyDangerousApps => AnyInstalled(d.installed, c.knownDangerousAppsPackages)
    case SuBinary => BinaryFound(c.paths, d.fileExists, BINARY_SU)
    case BusyBoxBinary => BinaryFound(c.paths, d.fileExists, BINARY_BUSYBOX)
    case DangerousProperties => DangerousPropsFound(d.getpropOutput)
    case RWPaths => RWPathsFound(d.sdkInt, c.pathsThatShouldNotBeWritable, d.mountOutput)
    case TestKeysSigned => TestKeys(d.buildTags)
    case SuExists => SuLocated(d.whichSuOutput)
    case RootNativeScan => RootNative(c.paths, d.native)
    case MagiskBinary => BinaryFound(c.paths, d.fileExists, BINARY_MAGISK)
  }

  /** The order `isRooted` evaluates its signals in. */
  const RootedOrder: seq<Signal> :=
    [RootManagementApps, PotentiallyDangerousApps, SuBinary, DangerousProperties, RWPaths,
     TestKeysSigned, SuExists, RootNativeScan, MagiskBinary]

  /** The order of `isRootedWithBusyBoxCheck`: busybox right after su. */
  const BusyBoxOrder: seq<Signal> :=
    [RootManagementApps, PotentiallyDangerousApps, SuBinary, BusyBoxBinary, DangerousProperties,
     RWPaths, TestKeysSigned, SuExists, RootNativeScan, MagiskBinary]

  /** Some signal of the list is positive. */
  predicate AnyHolds(c: Const, d: Device, order: seq<Signal>) {
    exists s :: s in order && Holds(c, d, s)
  }

  /** `isRooted`: the nine signals OR-ed left to right. */
  function IsRooted(c: Const, d: Device): (r: bool)
    ensures r == AnyHolds(c, d, RootedOrder)
  {
    Holds(c, d, RootManagementApps) || Holds(c, d, PotentiallyDangerousApps) || Holds(c, d, SuBinary)
    || Holds(c, d, DangerousProperties) || Holds(c, d, RWPaths) || Holds(c, d, TestKeysSigned)
    || Holds(c, d, SuExists) || Holds(c, d, RootNativeScan) || Holds(c, d, MagiskBinary)
  }

  /** The deprecated name of `isRooted`. */
  function IsRootedWithoutBusyBoxCheck(c: Const, d: Device): (r: bool)
    ensures r == AnyHolds(c, d, RootedOrder)
  {
    IsRooted(c, d)
  }

  /** `isRootedWithBusyBoxCheck`: as `isRooted`, with the busybox probe right after the su probe. */
  function IsRootedWithBusyBoxCheck(c: Const, d: Device): (r: bool)
    ensures r == AnyHolds(c, d, BusyBoxOrder)
  {
    Holds(c, d, RootManagementApps) || Holds(c, d, PotentiallyDangerousApps) || Holds(c, d, SuBinary)
    || Holds(c, d, BusyBoxBinary) || Holds(c, d, DangerousProperties) || Holds(c, d, RWPaths)
    || Holds(c, d, TestKeysSigned) || Holds(c, d, SuExists) || Holds(c, d, RootNativeScan)
    || Holds(c, d, MagiskBinary)
  }

  /** The signals a short-circuit OR evaluates: up to and including the first positive. */
  function Evaluated(c: Const, d: Device, order: seq<Signal>): seq<Signal> {
    if |order| == 0 then []
    else if Holds(c, d, order[0]) then [order[0]]
    else [order[0]] + Evaluated(c, d, order[1..])
  }

  /**
   * Short-circuit evaluation runs a prefix of the order whose every signal but the last is
   * negative; it stops on a positive signal exactly when the OR is true, and runs the whole
   * order when it is false.
   */
  lemma {:induction false} EvaluatedPrefix(c: Const, d: Device, order: seq<Signal>)
    ensures var e := Evaluated(c, d, order);
      e <= order
      && (forall i :: 0 <= i < |e| - 1 ==> !Holds(c, d, e[i]))
      && (AnyHolds(c, d, order) <==> |e| > 0 && Holds(c, d, e[|e| - 1]))
      && (!AnyHolds(c, d, order) ==> e == order)
  {
    if |order| > 0 && !Holds(c, d, order[0]) {
      EvaluatedPrefix(c, d, order[1..]);
      var rest := Evaluated(c, d, order[1..]);
      var e := [order[0]] + rest;
      assert order == [order[0]] + order[1..];
      forall i | 0 <= i < |e| - 1 ensures !Holds(c, d, e[i]) {
        if i > 0 { assert e[i] == rest[i - 1]; }
      }
      if AnyHolds(c, d, order) {
        var i :| 0 <= i < |order| && Holds(c, d, order[i]);
        assert order[1..][i - 1] == order[i];
      }
      if AnyHolds(c, d, order[1..]) {
        var i :| 0 <= i < |order[1..]| && Holds(c, d, order[1..][i]);
        assert order[i + 1] == order[1..][i];
      }
    } else if |order| > 0 {
      assert Holds(c, d, order[0]);
    }
  }

  /** The first k signals of the order are all negative. */
  ghost predicate Scanned(c: Const, d: Device, order: seq<Signal>, k: nat) {
    k <= |order| && forall j :: 0 <= j < k ==> !Holds(c, d, order[j])
  }

  /** A short-circuit OR that finds its first positive signal at k evaluates the first k + 1. */
  lemma StopsAt(c: Const, d: Device, order: seq<Signal>, k: nat)
    requires Scanned(c, d, order, k) && k < |order| && Holds(c, d, order[k])
    ensures AnyHolds(c, d, order) && Evaluated(c, d, order) == order[..k + 1]
  {
    EvaluatedPrefix(c, d, order);
    var e := Evaluated(c, d, order);
    assert e == order[..|e|];
  }

  /** A short-circuit OR whose every signal is negative evaluates them all and is false. */
  lemma RunsThrough(c: Const, d: Device, order: seq<Signal>)
    requires Scanned(c, d, order, |order|)
    ensures !AnyHolds(c, d, order) && Evaluated(c, d, order) == order
  {
    EvaluatedPrefix(c, d, order);
  }

  /** The busybox verdict is the plain verdict or the busybox probe. */
  lemma BusyBoxVerdict(c: Const, d: Device)
    ensures AnyHolds(c, d, BusyBoxOrder) == (AnyHolds(c, d, RootedOrder) || Holds(c, d, BusyBoxBinary))
  {
  }

  /**
   * The verdict does not depend on the evaluation order (only which signals get evaluated
   * does), so the signals may as well be evaluated in any order or all at once.
   */
  lemma AnyHoldsPermutation(c: Const, d: Device, p: seq<Signal>, q: seq<Signal>)
    requires multiset(p) == multiset(q)
    ensures AnyHolds(c, d, p) == AnyHolds(c, d, q)
  {
    if AnyHolds(c, d, p) {
      var s :| s in p && Holds(c, d, s);
      assert s in multiset(q);
    }
    if AnyHolds(c, d, q) {
      var s :| s in q && Holds(c, d, s);
      assert s in multiset(p);
    }
  }
}
