/**
  Worked command lines: a boot line whose `init` keeps its own arguments,
  `key=` beside a flag, a field with two `=`, the leading space when `init` is
  the only entry, and the purely textual search for `init=`.

  Each literal input is a parameter fixed by a precondition, as in
  `lemma L(rawString: string) requires rawString == "a=1=2"`, rather than
  written into the `ensures`. Dafny unrolls recursive functions applied to
  literals eagerly, and with `Parse` or `Serialized` on a literal that
  unrolling exhausts the verifier's resources; a parameter keeps the unrolling
  under the control of the lemmas each proof calls.
 */
module KernelArgsExamples {
  import opened Wrappers
  import opened GoStrings
  import opened KernelArgs
  import opened KernelArgsProperties

  /** A field splits at its first `=` only. */
  lemma ParseSplitsAtFirstEquals(rawString: string)
    requires rawString == "a=1=2"
    ensures Parse(rawString) == map["a" := Some("1=2")]
  {
    var kargs := map["a" := Some("1=2")];
    var order := ["a"];
    OtherFieldsSnoc(kargs, [], "a");
    assert [] + ["a"] == order;
    assert RenderField("a", kargs["a"]) == rawString;
    OccursStartsWith(rawString, InitMarker);
    RoundTrip(kargs, order);
  }

  lemma FooBarRoundTrippable(kargs: KernelArgs)
    requires kargs == map["foo" := Some(""), "bar" := None]
    ensures RoundTrippable(kargs)
  {
    assert RenderField("foo", kargs["foo"]) == "foo=";
    assert RenderField("bar", kargs["bar"]) == "bar";
    MarkerNeedsChar("foo=", 'i');
    MarkerNeedsChar("bar", 'i');
  }

  /** A map of two names other than `init`, visited in `[a, b]`, serializes as the two fields. */
  lemma SerializedTwo(kargs: KernelArgs, a: string, b: string)
    requires a in kargs && b in kargs && InitKey !in kargs
    ensures Serialized(kargs, [a, b]) == RenderField(a, kargs[a]) + " " + RenderField(b, kargs[b])
  {
    OtherFieldsSnoc(kargs, [], a);
    OtherFieldsSnoc(kargs, [a], b);
    assert [] + [a] == [a] && [a] + [b] == [a, b];
    JoinOfTwo(RenderField(a, kargs[a]), RenderField(b, kargs[b]));
  }

  /** The two iteration orders of the map give the two orders of its fields. */
  lemma FooBarSerialized(kargs: KernelArgs)
    requires kargs == map["foo" := Some(""), "bar" := None]
    ensures Serialized(kargs, ["foo", "bar"]) == "foo= bar"
    ensures Serialized(kargs, ["bar", "foo"]) == "bar foo="
  {
    assert RenderField("foo", kargs["foo"]) == "foo=";
    assert RenderField("bar", kargs["bar"]) == "bar";
    SerializedTwo(kargs, "foo", "bar");
    SerializedTwo(kargs, "bar", "foo");
  }

  /** `key=` is an empty value and a bare `key` a flag; both render back exactly, in either order. */
  lemma EmptyValueAndFlag(rawString: string, kargs: KernelArgs)
    requires rawString == "foo= bar"
    requires kargs == map["foo" := Some(""), "bar" := None]
    ensures Parse(rawString) == kargs
    ensures Serialized(kargs, ["foo", "bar"]) == "foo= bar"
    ensures Serialized(kargs, ["bar", "foo"]) == "bar foo="
  {
    FooBarSerialized(kargs);
    FooBarRoundTrippable(kargs);
    RoundTrip(kargs, ["foo", "bar"]);
  }

  /** Adding one entry that renders back on its own keeps a map round-trippable. */
  lemma RoundTrippableInsert(kargs: KernelArgs, key: string, value: Option<string>)
    requires RoundTrippable(kargs)
    requires key != InitKey ==> IsTokenEntry(key, value) && !Contains(RenderField(key, value), InitMarker)
    ensures RoundTrippable(kargs[key := value])
  {
  }

  /** Printable ASCII other than the space is not white space. */
  lemma NoSpaceOfPrintable(s: string)
    requires forall i :: 0 <= i < |s| ==> '!' <= s[i] <= '~'
    ensures NoSpace(s)
  {
  }

  lemma QuietIsToken()
    ensures IsTokenEntry("quiet", None)
    ensures !Contains(RenderField("quiet", None), InitMarker)
  {
    assert RenderField("quiet", None) == "quiet";
    NoSpaceOfPrintable("quiet");
    MarkerNeedsChar("quiet", '=');
  }

  lemma ConsoleIsToken()
    ensures IsTokenEntry("console", Some("ttyS0"))
    ensures !Contains(RenderField("console", Some("ttyS0")), InitMarker)
  {
    NoSpaceOfPrintable("console");
    NoSpaceOfPrintable("ttyS0");
    MarkerNeedsChar("console" + "=" + "ttyS0", 'i');
  }

  lemma BootLineRoundTrippable(kargs: KernelArgs)
    requires kargs == map["quiet" := None, "console" := Some("ttyS0"), "init" := Some("/sbin/init arg1 arg2")]
    ensures RoundTrippable(kargs)
  {
    var empty: KernelArgs := map[];
    QuietIsToken();
    RoundTrippableInsert(empty, "quiet", None);
    ConsoleIsToken();
    RoundTrippableInsert(empty["quiet" := None], "console", Some("ttyS0"));
    RoundTrippableInsert(empty["quiet" := None]["console" := Some("ttyS0")], "init", Some("/sbin/init arg1 arg2"));
  }

  lemma BootLineFields(kargs: KernelArgs)
    requires kargs == map["quiet" := None, "console" := Some("ttyS0"), "init" := Some("/sbin/init arg1 arg2")]
    ensures OtherFields(kargs, ["init", "quiet", "console"]) == ["quiet", "console=ttyS0"]
  {
    assert RenderField("console", kargs["console"]) == "console=ttyS0";
    OtherFieldsSnoc(kargs, [], "init");
    OtherFieldsSnoc(kargs, ["init"], "quiet");
    OtherFieldsSnoc(kargs, ["init", "quiet"], "console");
    assert [] + ["init"] == ["init"] && ["init"] + ["quiet"] == ["init", "quiet"];
    assert ["init", "quiet"] + ["console"] == ["init", "quiet", "console"];
  }

  lemma BootLineSerialized(kargs: KernelArgs)
    requires kargs == map["quiet" := None, "console" := Some("ttyS0"), "init" := Some("/sbin/init arg1 arg2")]
    ensures Serialized(kargs, ["init", "quiet", "console"]) == "quiet console=ttyS0 init=/sbin/init arg1 arg2"
  {
    BootLineFields(kargs);
    JoinOfTwo("quiet", "console=ttyS0");
    BootLinePieces();
  }

  lemma BootLinePieces()
    ensures "quiet console=ttyS0 init=/sbin/init arg1 arg2" ==
      "quiet" + " " + "console=ttyS0" + " " + (InitKey + "=" + "/sbin/init arg1 arg2")
  {
  }

  lemma JoinOfTwo(a: string, b: string)
    ensures Join([a, b], " ") == a + " " + b
  {
    assert [a, b][1..] == [b];
  }

  /** The `init` value keeps its own arguments, and serializing puts it back last. */
  lemma InitKeepsItsArguments(rawString: string, kargs: KernelArgs)
    requires rawString == "quiet console=ttyS0 init=/sbin/init arg1 arg2"
    requires kargs == map["quiet" := None, "console" := Some("ttyS0"), "init" := Some("/sbin/init arg1 arg2")]
    ensures Parse(rawString) == kargs
    ensures Serialized(kargs, ["init", "quiet", "console"]) == rawString
  {
    BootLineSerialized(kargs);
    BootLineRoundTrippable(kargs);
    RoundTrip(kargs, ["init", "quiet", "console"]);
  }

  /** With `init` as the only entry, the command line starts with a space. */
  lemma OnlyInitHasLeadingSpace(kargs: KernelArgs)
    requires kargs == map["init" := Some("/sbin/init")]
    ensures Serialized(kargs, ["init"]) == " init=/sbin/init"
  {
    InitSerializedLast(kargs, ["init"]);
    assert RenderField(InitKey, kargs[InitKey]) == "init=/sbin/init";
  }

  /** A text without one of the marker's characters cannot hold the marker. */
  lemma MarkerNeedsChar(s: string, c: char)
    requires c in InitMarker && c !in s
    ensures !Contains(s, InitMarker)
  {
  }

  /** The marker cannot start inside a prefix without an `i`. */
  lemma MarkerNotBefore(s: string, pre: string)
    requires |pre| <= |s| && s[..|pre|] == pre && 'i' !in pre
    ensures forall j :: 0 <= j < |pre| ==> !OccursAt(s, InitMarker, j)
  {
    OccursStartsWith(s, InitMarker);
    assert forall j :: 0 <= j < |pre| ==> s[j] == pre[j];
  }

  /**
    The search for `init=` is textual: in `rdinit=/sbin/x quiet` it finds the
    tail of `rdinit=`, so `rd` becomes a flag and the rest the `init` value.
   */
  lemma InitMarkerInsideAnotherName(rawString: string)
    requires rawString == "rdinit=/sbin/x quiet"
    ensures Parse(rawString) == map["rd" := None, "init" := Some("/sbin/x quiet")]
  {
    RdinitParse(rawString);
  }

  lemma RdinitParse(rawString: string)
    requires rawString == "rdinit=/sbin/x quiet"
    ensures Parse(rawString) == map["rd" := None][InitKey := Some("/sbin/x quiet")]
  {
    assert rawString == "rd" + InitMarker + "/sbin/x quiet";
    NoSpaceOfPrintable("rd");
    ParseOfFlagThenInit(rawString, "rd", "/sbin/x quiet");
  }

  /** A flag without `i` written straight before `init=` stays a flag beside the `init` value. */
  lemma ParseOfFlagThenInit(rawString: string, flag: string, initArgs: string)
    requires rawString == flag + InitMarker + initArgs
    requires flag != [] && NoSpace(flag) && '=' !in flag && 'i' !in flag
    ensures Parse(rawString) == map[flag := None][InitKey := Some(initArgs)]
  {
    assert rawString[..|flag|] == flag;
    MarkerNotBefore(rawString, flag);
    ParseWithMarker(rawString, flag, initArgs);
    TokeniseOfFlag(flag);
  }

  lemma TokeniseOfFlag(flag: string)
    requires flag != [] && NoSpace(flag) && '=' !in flag
    ensures Tokenise(Fields(TrimSpace(flag))) == map[flag := None]
  {
    assert TrimLeft(flag) == flag;
    assert TrimSpace(flag) == flag;
    FieldsOfWordThen(flag, []);
    assert flag + [] == flag;
    SplitFieldOfRendered(flag, None);
    assert [flag][..0] == [];
  }
}
