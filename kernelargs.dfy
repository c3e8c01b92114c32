/**
  The kernel boot command-line codec of kernelargs.go: `parseKernelArgs` turns a
  command line into a map from argument name to optional value, and
  `kernelArgs.String` turns such a map back into a command line, with `init`
  always last.

  Each operation is a method that follows the Go code loop for loop, and a
  function that specifies it; the properties are proved about the functions in
  module KernelArgsProperties.
 */
module KernelArgs {
  import opened Wrappers
  import opened GoStrings

  /**
    The `kernelArgs` map: `None` stands for a bare flag `key`, `Some("")` for
    `key=` and `Some(v)` for `key=v`.
   */
  type KernelArgs = map<string, Option<string>>

  const InitKey: string := "init"

  /** The text whose first occurrence ends the tokenised part of a command line. */
  const InitMarker: string := "init="

  /** The field that stands for one entry: `key`, `key=` or `key=value`. */
  function RenderField(key: string, value: Option<string>): string {
    match value
    case None => key
    case Some(v) => key + "=" + v
  }

  /** A field split at its first `=` into its name and optional value. */
  function SplitField(kv: string): (entry: (string, Option<string>))
    ensures '=' !in entry.0
    ensures entry.1 == None <==> '=' !in kv
    ensures RenderField(entry.0, entry.1) == kv
  {
    SplitAtFirstChar(kv, '=');
    var kvSplit := SplitAtFirst(kv, "=");
    (kvSplit[0], if |kvSplit| == 2 then Some(kvSplit[1]) else None)
  }

  /**
    The map built by storing the entries of `fields` one after another, so that
    a later field overwrites an earlier one with the same name.
   */
  function Tokenise(fields: seq<string>): KernelArgs {
    if fields == [] then map[]
    else
      var entry := SplitField(fields[|fields| - 1]);
      Tokenise(fields[..|fields| - 1])[entry.0 := entry.1]
  }

  /** The part of a command line that is split into fields: all of it, or the trimmed text before the first `init=`. */
  function TokenisablePart(rawString: string): string {
    if Contains(rawString, InitMarker) then TrimSpace(SplitAtFirst(rawString, InitMarker)[0])
    else rawString
  }

  /** The text after the first `init=`, kept verbatim, when there is one. */
  function CapturedInit(rawString: string): Option<string> {
    if Contains(rawString, InitMarker) then Some(SplitAtFirst(rawString, InitMarker)[1])
    else None
  }

  /** What `parseKernelArgs` returns. */
  function Parse(rawString: string): KernelArgs {
    var argMap := Tokenise(Fields(TokenisablePart(rawString)));
    if CapturedInit(rawString).Some? then argMap[InitKey := CapturedInit(rawString)] else argMap
  }

  /** `parseKernelArgs`. */
  method ParseKernelArgs(rawString: string) returns (argMap: KernelArgs)
    ensures argMap == Parse(rawString)
  {
    argMap := map[];
    var raw := rawString;
    var initArgs: Option<string> := None;
    if Contains(raw, InitMarker) {
      var initSplit := SplitAtFirst(raw, InitMarker);
      raw := TrimSpace(initSplit[0]);
      initArgs := Some(initSplit[1]);
    }
    var fields := Fields(raw);
    for i := 0 to |fields|
      invariant argMap == Tokenise(fields[..i])
    {
      // the name ends at the first `=`; whatever follows, `=` included, is the value
      var kvSplit := SplitAtFirst(fields[i], "=");
      var key := kvSplit[0];
      var value: Option<string> := None;
      if |kvSplit| == 2 {
        value := Some(kvSplit[1]);
      }
      assert fields[..i + 1][..i] == fields[..i];
      argMap := argMap[key := value];
    }
    assert fields[..|fields|] == fields;
    if initArgs.Some? {
      argMap := argMap[InitKey := initArgs];
    }
  }

  /** Go's map iteration: every key of `kargs` exactly once, in some order. */
  predicate IsIterationOrder(kargs: KernelArgs, order: seq<string>) {
    && (forall i, j :: 0 <= i < j < |order| ==> order[i] != order[j])
    && (forall i :: 0 <= i < |order| ==> order[i] in kargs)
    && (forall k :: k in kargs ==> k in order)
  }

  /** The fields of the keys other than `init`, in iteration order. */
  function OtherFields(kargs: KernelArgs, order: seq<string>): seq<string>
    requires forall i :: 0 <= i < |order| ==> order[i] in kargs
  {
    if order == [] then []
    else
      var fields := OtherFields(kargs, order[..|order| - 1]);
      var key := order[|order| - 1];
      if key == InitKey then fields else fields + [RenderField(key, kargs[key])]
  }

  /** What `kernelArgs.String` returns when the map is visited in `order`. */
  function Serialized(kargs: KernelArgs, order: seq<string>): string
    requires forall i :: 0 <= i < |order| ==> order[i] in kargs
  {
    var joined := Join(OtherFields(kargs, order), " ");
    if InitKey in kargs then joined + " " + RenderField(InitKey, kargs[InitKey]) else joined
  }

  /** `kernelArgs.String`, with Go's iteration order over the map given as `order`. */
  method String(kargs: KernelArgs, order: seq<string>) returns (kernelArgsString: string)
    requires IsIterationOrder(kargs, order)
    ensures kernelArgsString == Serialized(kargs, order)
  {
    var fields: seq<string> := [];
    var initField: Option<string> := None;
    for i := 0 to |order|
      invariant fields == OtherFields(kargs, order[..i])
      invariant initField == if InitKey in order[..i] then Some(RenderField(InitKey, kargs[InitKey])) else None
    {
      var key := order[i];
      var value := kargs[key];
      var field := key;
      if value.Some? {
        field := field + "=" + value.value;
      }
      assert order[..i + 1][..i] == order[..i];
      if key == InitKey {
        initField := Some(field);
        continue;
      }
      fields := fields + [field];
    }
    assert order[..|order|] == order;

    kernelArgsString := Join(fields, " ");

    // init goes last: everything after it belongs to the init process
    if initField.Some? {
      kernelArgsString := kernelArgsString + " " + initField.value;
    }
  }
}
