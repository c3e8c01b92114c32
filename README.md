# Kernel boot command-line codec

This project models the codec that a Firecracker Go SDK uses for the guest
kernel's boot command line. The codec lives in `kernelargs.go`. A `kernelArgs`
value maps each parameter name to one of three things:

- nothing, for a flag such as `quiet`;
- an empty value, for `key=`;
- a value, for `key=value`.

`parseKernelArgs` reads a raw command line into such a map:

- everything after the first textual `init=` becomes the `init` value, verbatim;
- the trimmed text before it is split on white space into fields;
- each field is split at its first `=`;
- a later field overwrites an earlier one with the same name.

`kernelArgs.String` writes a map back out. It joins every entry except `init`
with single spaces, then appends `init` last, after one space.

Files:

- `wrappers.dfy`: `Option`, which stands for Go's nil-able `*string`.
- `gostrings.dfy`: the parts of Go's `strings` package the codec calls, each defined in Dafny:
  - `Contains`;
  - `SplitN(s, sep, 2)`, as `SplitAtFirst`;
  - `TrimSpace`, `Fields` and `Join`;
  - `unicode.IsSpace`, taken from the Go character table.

  The file also holds the lemmas about how `Fields` and `Join` fit together.
- `kernelargs.dfy`: the two operations.
  - `ParseKernelArgs` and `String` are methods with the loops of the Go code.
  - Each is proved equal to a specification function, `Parse` or `Serialized`.
  - Go's map iteration order is unspecified, so `String` takes it as a parameter `order`. `IsIterationOrder` requires `order` to list every key of the map exactly once. Every property holds for every such order.
- `kernelargs_properties.dfy`: what parsing keeps, where `init` goes when serializing, and the round trip.
- `kernelargs_examples.dfy`: concrete command lines, including the sharp edges kept from the code.

Behaviour kept exactly as the code has it:

- **Leading space.** A map whose only entry is `init` serializes with a leading space: ` init=…`.
- **Textual search for `init=`.** The search does not respect field boundaries, so `rdinit=/sbin/x quiet` gives the flag `rd` and the `init` value `/sbin/x quiet`.
- **Empty names.** A field `=x` gives the empty name `""` with the value `x`. A field never gives an empty name without a value.

## Model

| member | source | states |
|---|---|---|
| KernelArgs.ParseKernelArgs | kernelargs.go:54-82 | The map built by the loop over the fields, with the captured `init` written last, is `Parse(rawString)`; the properties of `Parse` below therefore hold for the method. |
| KernelArgs.String | kernelargs.go:28-51 | For any iteration order that lists every key once, the string built by the loop, the join and the `init` suffix is `Serialized(kargs, order)`. |
| KernelArgs.SplitField | kernelargs.go:64-71 | The name never holds `=`; there is no value exactly when the field has no `=`; rendering the name and value gives back the field. So `k=a=b` splits into `k` and `a=b`, `k=` into `k` and the empty value, and `k` into a flag. |
| KernelArgsProperties.SplitFieldOfRendered | kernelargs.go:64-71 | Splitting the rendered form `key`, `key=` or `key=value` of an entry whose name has no `=` gives that same entry back. |
| KernelArgsProperties.InitValueIsVerbatimSuffix | kernelargs.go:57-61 | If `init=` first occurs right after `pre`, then `init` maps to exactly the text after it, untrimmed, and the text split into fields is `TrimSpace(pre)`. |
| KernelArgsProperties.ParseWithMarker | kernelargs.go:57-79 | The parse is the tokenised `TrimSpace(pre)` with `init` then set to the text after the first `init=`; any `init` parsed from the fields loses to it. |
| KernelArgsProperties.ParseWithoutMarker | kernelargs.go:57-74 | When the command line has no `init=`, the parse is exactly the tokenising of all of its fields. |
| KernelArgsProperties.ParseEntries | kernelargs.go:62-79 | Every entry except `init` has a name with no white space and no `=`, a value with no white space, and a non-empty field that holds no `init=`. Without `init=` in the command line this holds for every entry, and an `init` entry is only a flag. |
| KernelArgsProperties.TokeniseKeys | kernelargs.go:62-74 | The names in the tokenised map are exactly the names of the fields. |
| KernelArgsProperties.TokeniseLastWins | kernelargs.go:62-74 | The value stored for a name is the value of the last field with that name. |
| KernelArgsProperties.ParseLastWins | kernelargs.go:62-79 | Among the fields of the tokenised part, the last one with a given name decides its value, unless a captured `init` overrides it. |
| KernelArgsProperties.ParseBlank | kernelargs.go:55-62 | An empty or all-white-space command line parses to the empty map. |
| KernelArgsProperties.IterationOrderLength | kernelargs.go:31 | An order that visits every key once has as many names as the map has keys. |
| KernelArgsProperties.SerializedFields | kernelargs.go:29-43 | `Others(order)`, the iteration order without `init`, is an iteration order of the map without `init`, and the `i`-th other field is the rendering `key`, `key=` or `key=value` of its `i`-th name: one field per name other than `init`, in iteration order, even when two names render alike. Without `init` the output is their join by single spaces. The empty map gives `""`. |
| KernelArgsProperties.InitSerializedLast | kernelargs.go:36-48 | With `init` present, the output is the join of the other fields followed by one space and the `init` field, so nothing follows it. Every other field renders a name other than `init`, though its text may equal the `init` field: the flag `init=x` beside `init` ↦ `x` gives `init=x init=x`. A map holding only `init` gives ` init…`, with its leading space. |
| KernelArgsProperties.RoundTrip | kernelargs.go:28-82 | For a map whose entries other than `init` have a name with no `=` or white space, a value with no white space, a value whenever the name is empty, and a field with no `init=`, parsing its serialization in any iteration order gives the map back. |
| KernelArgsProperties.ParseSerializeParse | kernelargs.go:28-82 | Whatever the command line, serializing its parse in any order and parsing again gives the same map. |
| KernelArgsExamples.ParseSplitsAtFirstEquals | kernelargs.go:64-71 | `a=1=2` parses to `a` with the value `1=2`. |
| KernelArgsExamples.EmptyValueAndFlag | kernelargs.go:21-23 | `foo= bar` parses to `foo` with the empty value and the flag `bar`; that map serializes to `foo= bar` or `bar foo=`, depending on the iteration order. |
| KernelArgsExamples.InitKeepsItsArguments | kernelargs.go:57-61 | `quiet console=ttyS0 init=/sbin/init arg1 arg2` keeps `/sbin/init arg1 arg2` as the `init` value, and serializing with `init` visited first still puts it last. |
| KernelArgsExamples.OnlyInitHasLeadingSpace | kernelargs.go:43-48 | The map holding only `init` ↦ `/sbin/init` serializes to ` init=/sbin/init`. |
| KernelArgsExamples.InitMarkerInsideAnotherName | kernelargs.go:57-61 | `rdinit=/sbin/x quiet` parses to the flag `rd` and `init` ↦ `/sbin/x quiet`, because the search for `init=` is textual. |

## Left out

- Strings are sequences of Unicode characters, not Go's byte strings. Invalid UTF-8, and the way `strings.Fields` steps over it, is not modelled.
- Go randomises map iteration order. It is a parameter of `String` here, so the properties are stated for every order, but no randomness is modelled.
- Go's `*string` is modelled as an optional value. Pointer identity and aliasing, such as `&initSplit[1]`, are not modelled.
- GoStrings.SplitAtFirst: requires a non-empty separator. Go's `SplitN` with an empty separator splits into characters, but the codec only ever passes `init=` and `=`.
- The kernel's reading of individual parameters is out of scope. The codec performs no validation.
- KernelArgsProperties.ParseEntries: it does not claim that every name is non-empty, because the field `=x` yields the empty name with the value `x`. It claims instead that an empty name always carries a value, so its field is never empty.
