/**
  Properties of the kernel boot command-line codec: what parsing keeps, how
  `init` is serialized, and the round trip between the two.
 */
module KernelArgsProperties {
  import opened Wrappers
  import opened GoStrings
  import opened KernelArgs

  /**
    An entry that one whitespace-delimited field can produce: a name without
    `=` or white space, a value without white space, and a non-empty field.
   */
  predicate IsTokenEntry(key: string, value: Option<string>) {
    && '=' !in key
    && NoSpace(key)
    && (value.Some? ==> NoSpace(value.value))
    && (key == [] ==> value.Some?)
  }

  // ---------------------------------------------------------------------------
  // Fields and entries

  /** Splitting a rendered entry gives the entry back, provided its name has no `=`. */
  lemma SplitFieldOfRendered(key: string, value: Option<string>)
    requires '=' !in key
    ensures SplitField(RenderField(key, value)) == (key, value)
  {
    var f := RenderField(key, value);
    var e := SplitField(f);
    match value
    case None =>
      assert '=' !in f;
    case Some(v) =>
      assert f[|key|] == '=';
      assert e.1.Some?;
      assert f == e.0 + "=" + e.1.value;
      assert |e.0| == |key|;
      assert e.0 == f[..|key|] == key;
      assert e.1.value == f[|key| + 1..] == v;
  }

  /** Every non-empty field without white space splits into a token entry. */
  lemma EntryOfField(f: string)
    requires f != [] && NoSpace(f)
    ensures IsTokenEntry(SplitField(f).0, SplitField(f).1)
  {
    var e := SplitField(f);
    if e.1.Some? {
      var v := e.1.value;
      assert f == e.0 + "=" + v;
      forall j | 0 <= j < |e.0| ensures !IsSpace(e.0[j]) {
        assert e.0[j] == f[j];
      }
      forall j | 0 <= j < |v| ensures !IsSpace(v[j]) {
        assert v[j] == f[|e.0| + 1 + j];
      }
    }
  }

  // ---------------------------------------------------------------------------
  // Tokenising: the loop of parseKernelArgs over the fields

  /** The names in the map are exactly the names of the fields. */
  lemma TokeniseKeys(fields: seq<string>)
    ensures forall k :: k in Tokenise(fields) <==>
      exists i :: 0 <= i < |fields| && SplitField(fields[i]).0 == k
  {
    TokeniseKeysFromFields(fields);
    TokeniseHoldsFieldKeys(fields);
  }

  lemma {:induction false} TokeniseKeysFromFields(fields: seq<string>)
    ensures forall k :: k in Tokenise(fields) ==>
      exists i :: 0 <= i < |fields| && SplitField(fields[i]).0 == k
  {
    if fields != [] {
      var n := |fields|;
      var init := fields[..n - 1];
      var last := SplitField(fields[n - 1]);
      var m := Tokenise(init);
      assert Tokenise(fields) == m[last.0 := last.1];
      TokeniseKeysFromFields(init);
      forall k | k in Tokenise(fields)
        ensures exists i :: 0 <= i < |fields| && SplitField(fields[i]).0 == k
      {
        if k == last.0 {
          assert SplitField(fields[n - 1]).0 == k;
        } else {
          assert k in m;
          var i :| 0 <= i < |init| && SplitField(init[i]).0 == k;
          assert fields[i] == init[i];
        }
      }
    }
  }

  lemma {:induction false} TokeniseHoldsFieldKeys(fields: seq<string>)
    ensures forall i :: 0 <= i < |fields| ==> SplitField(fields[i]).0 in Tokenise(fields)
  {
    if fields != [] {
      var n := |fields|;
      var init := fields[..n - 1];
      var last := SplitField(fields[n - 1]);
      var m := Tokenise(init);
      assert Tokenise(fields) == m[last.0 := last.1];
      TokeniseHoldsFieldKeys(init);
      forall i | 0 <= i < n ensures SplitField(fields[i]).0 in Tokenise(fields) {
        if i < n - 1 {
          assert init[i] == fields[i];
          assert SplitField(init[i]).0 in m;
        }
      }
    }
  }

  /** The value stored for a name is the one of its last field. */
  lemma {:induction false} TokeniseLastWins(fields: seq<string>, i: int)
    requires 0 <= i < |fields|
    requires forall j :: i < j < |fields| ==> SplitField(fields[j]).0 != SplitField(fields[i]).0
    ensures SplitField(fields[i]).0 in Tokenise(fields)
    ensures Tokenise(fields)[SplitField(fields[i]).0] == SplitField(fields[i]).1
  {
    var n := |fields|;
    var init := fields[..n - 1];
    var last := SplitField(fields[n - 1]);
    var e := SplitField(fields[i]);
    var m := Tokenise(init);
    assert Tokenise(fields) == m[last.0 := last.1];
    if i == n - 1 {
      assert e == last;
    } else {
      assert init[i] == fields[i];
      forall j | i < j < |init| ensures SplitField(init[j]).0 != e.0 {
        assert init[j] == fields[j];
      }
      TokeniseLastWins(init, i);
      assert e.0 in m && m[e.0] == e.1;
      assert last.0 != e.0;
    }
  }

  /** Every entry of the map comes from one of the fields. */
  lemma {:induction false} TokeniseEntriesFromFields(fields: seq<string>)
    ensures forall k :: k in Tokenise(fields) ==>
      exists i :: 0 <= i < |fields| && SplitField(fields[i]) == (k, Tokenise(fields)[k])
  {
    if fields != [] {
      var n := |fields|;
      var init := fields[..n - 1];
      TokeniseEntriesFromFields(init);
      forall k | k in Tokenise(fields)
        ensures exists i :: 0 <= i < |fields| && SplitField(fields[i]) == (k, Tokenise(fields)[k])
      {
        if k == SplitField(fields[n - 1]).0 {
          assert SplitField(fields[n - 1]) == (k, Tokenise(fields)[k]);
        } else {
          assert k in Tokenise(init) && Tokenise(fields)[k] == Tokenise(init)[k];
          var i :| 0 <= i < |init| && SplitField(init[i]) == (k, Tokenise(init)[k]);
          assert fields[i] == init[i];
        }
      }
    }
  }

  /** Tokenising whitespace-free fields gives token entries, each rendering back to one of the fields. */
  lemma TokeniseEntries(fields: seq<string>)
    requires forall i :: 0 <= i < |fields| ==> fields[i] != [] && NoSpace(fields[i])
    ensures forall k :: k in Tokenise(fields) ==>
      IsTokenEntry(k, Tokenise(fields)[k]) && RenderField(k, Tokenise(fields)[k]) in fields
  {
    TokeniseEntriesFromFields(fields);
    forall k | k in Tokenise(fields)
      ensures IsTokenEntry(k, Tokenise(fields)[k]) && RenderField(k, Tokenise(fields)[k]) in fields
    {
      var i :| 0 <= i < |fields| && SplitField(fields[i]) == (k, Tokenise(fields)[k]);
      EntryOfField(fields[i]);
    }
  }

  // ---------------------------------------------------------------------------
  // parseKernelArgs

  /** The part that is tokenised never holds `init=`. */
  lemma TokenisablePartAvoidsMarker(rawString: string)
    ensures !Contains(TokenisablePart(rawString), InitMarker)
  {
    if Contains(rawString, InitMarker) {
      var pre := SplitAtFirst(rawString, InitMarker)[0];
      if Contains(pre, InitMarker) {
        var j :| OccursAt(pre, InitMarker, j);
        assert rawString[j..j + |InitMarker|] == pre[j..j + |InitMarker|];
        assert OccursAt(rawString, InitMarker, j);
      }
      var t := TrimSpace(pre);
      if Contains(t, InitMarker) {
        ContainsTransitive(pre, t, InitMarker);
      }
    }
  }

  /**
    When `init=` occurs, `init` maps to exactly the text after its first
    occurrence, white space and all.
   */
  lemma InitValueIsVerbatimSuffix(rawString: string, pre: string, initArgs: string)
    requires rawString == pre + InitMarker + initArgs
    requires forall j :: 0 <= j < |pre| ==> !OccursAt(rawString, InitMarker, j)
    ensures InitKey in Parse(rawString) && Parse(rawString)[InitKey] == Some(initArgs)
    ensures TokenisablePart(rawString) == TrimSpace(pre)
  {
    assert OccursAt(rawString, InitMarker, |pre|);
    var r := SplitAtFirst(rawString, InitMarker);
    assert OccursAt(rawString, InitMarker, |r[0]|);
    assert |r[0]| == |pre|;
    assert r[1] == rawString[|pre| + |InitMarker|..] == initArgs;
    assert r[0] == rawString[..|pre|] == pre;
  }

  lemma ParseWithoutMarker(rawString: string)
    requires !Contains(rawString, InitMarker)
    ensures Parse(rawString) == Tokenise(Fields(rawString))
  {
  }

  lemma ParseWithMarker(rawString: string, pre: string, initArgs: string)
    requires rawString == pre + InitMarker + initArgs
    requires forall j :: 0 <= j < |pre| ==> !OccursAt(rawString, InitMarker, j)
    ensures Parse(rawString) == Tokenise(Fields(TrimSpace(pre)))[InitKey := Some(initArgs)]
  {
    InitValueIsVerbatimSuffix(rawString, pre, initArgs);
  }

  /** The empty command line, or one of white space only, parses to the empty map. */
  lemma ParseBlank(rawString: string)
    requires forall i :: 0 <= i < |rawString| ==> IsSpace(rawString[i])
    ensures Parse(rawString) == map[]
  {
    OccursStartsWith(rawString, InitMarker);
    FieldsOfBlank(rawString);
  }

  /** Among the fields of the tokenised part, the last one with a given name decides its value. */
  lemma ParseLastWins(rawString: string, i: int)
    requires var fields := Fields(TokenisablePart(rawString));
      && 0 <= i < |fields|
      && (forall j :: i < j < |fields| ==> SplitField(fields[j]).0 != SplitField(fields[i]).0)
    requires SplitField(Fields(TokenisablePart(rawString))[i]).0 == InitKey ==> !Contains(rawString, InitMarker)
    ensures var entry := SplitField(Fields(TokenisablePart(rawString))[i]);
      entry.0 in Parse(rawString) && Parse(rawString)[entry.0] == entry.1
  {
    TokeniseLastWins(Fields(TokenisablePart(rawString)), i);
  }

  /**
    Every entry other than `init` is one that a single field can produce and
    holds no `init=`; without `init=` in the command line, `init` is at most a flag.
   */
  lemma ParseEntries(rawString: string)
    ensures forall k :: k in Parse(rawString) && k != InitKey ==>
      && IsTokenEntry(k, Parse(rawString)[k])
      && !Contains(RenderField(k, Parse(rawString)[k]), InitMarker)
    ensures !Contains(rawString, InitMarker) ==>
      forall k :: k in Parse(rawString) ==> IsTokenEntry(k, Parse(rawString)[k])
    ensures !Contains(rawString, InitMarker) && InitKey in Parse(rawString) ==>
      Parse(rawString)[InitKey] == None
  {
    var part := TokenisablePart(rawString);
    var fields := Fields(part);
    var tokens := Tokenise(fields);
    TokenisablePartAvoidsMarker(rawString);
    FieldsOccur(part);
    TokeniseEntries(fields);
    forall k | k in tokens
      ensures IsTokenEntry(k, tokens[k]) && !Contains(RenderField(k, tokens[k]), InitMarker)
    {
      var f := RenderField(k, tokens[k]);
      if Contains(f, InitMarker) {
        ContainsTransitive(part, f, InitMarker);
      }
    }
    if !Contains(rawString, InitMarker) && InitKey in tokens {
      var f := RenderField(InitKey, tokens[InitKey]);
      assert tokens[InitKey].Some? ==> OccursAt(f, InitMarker, 0);
    }
  }

  // ---------------------------------------------------------------------------
  // kernelArgs.String

  /** Go visits every key once, so an iteration order has as many names as the map. */
  lemma {:induction false} IterationOrderLength(kargs: KernelArgs, order: seq<string>)
    requires IsIterationOrder(kargs, order)
    ensures |order| == |kargs|
  {
    if order == [] {
      assert kargs.Keys == {};
    } else {
      var n := |order|;
      var last := order[n - 1];
      var rest := kargs - {last};
      forall i | 0 <= i < n - 1 ensures order[i] in rest {
        assert order[i] != order[n - 1];
      }
      forall k | k in rest ensures k in order[..n - 1] {
        var i :| 0 <= i < n && order[i] == k;
        assert i != n - 1;
      }
      IterationOrderLength(rest, order[..n - 1]);
      assert rest.Keys == kargs.Keys - {last};
    }
  }

  lemma OtherFieldsSnoc(kargs: KernelArgs, order: seq<string>, key: string)
    requires forall i :: 0 <= i < |order| ==> order[i] in kargs
    requires key in kargs
    ensures OtherFields(kargs, order + [key]) ==
      if key == InitKey then OtherFields(kargs, order) else OtherFields(kargs, order) + [RenderField(key, kargs[key])]
  {
    assert (order + [key])[..|order|] == order;
  }

  /** The other fields: one per name other than `init` in the order, each the rendering of its entry. */
  lemma {:induction false} OtherFieldsShape(kargs: KernelArgs, order: seq<string>)
    requires forall i :: 0 <= i < |order| ==> order[i] in kargs
    requires forall i, j :: 0 <= i < j < |order| ==> order[i] != order[j]
    ensures |OtherFields(kargs, order)| == |order| - (if InitKey in order then 1 else 0)
    ensures forall f :: f in OtherFields(kargs, order) ==>
      exists k :: k in order && k != InitKey && f == RenderField(k, kargs[k])
    ensures forall k :: k in order && k != InitKey ==> RenderField(k, kargs[k]) in OtherFields(kargs, order)
  {
    if order != [] {
      var n := |order|;
      var pre := order[..n - 1];
      OtherFieldsShape(kargs, pre);
      assert order == pre + [order[n - 1]];
      assert InitKey in order <==> InitKey in pre || order[n - 1] == InitKey;
      assert order[n - 1] !in pre;
    }
  }

  /** The names of `order` other than `init`, in the same order. */
  function Others(order: seq<string>): (names: seq<string>)
    ensures forall k :: k in names <==> k in order && k != InitKey
  {
    if order == [] then []
    else
      var pre := order[..|order| - 1];
      var key := order[|order| - 1];
      assert order == pre + [key];
      if key == InitKey then Others(pre) else Others(pre) + [key]
  }

  /** Going without `init` keeps the names of an iteration order distinct. */
  lemma {:induction false} OthersDistinct(order: seq<string>)
    requires forall i, j :: 0 <= i < j < |order| ==> order[i] != order[j]
    ensures forall i, j :: 0 <= i < j < |Others(order)| ==> Others(order)[i] != Others(order)[j]
  {
    if order != [] {
      var n := |order|;
      var pre := order[..n - 1];
      var key := order[n - 1];
      OthersDistinct(pre);
      if key != InitKey {
        assert key !in pre;
        assert key !in Others(pre);
        var names := Others(pre) + [key];
        forall i, j | 0 <= i < j < |names| ensures names[i] != names[j] {
          if j == |names| - 1 {
            assert names[i] in Others(pre);
          } else {
            assert names[i] == Others(pre)[i] && names[j] == Others(pre)[j];
          }
        }
      }
    }
  }

  /** Without `init`, an iteration order of a map is one of the map without `init`. */
  lemma OthersIsIterationOrder(kargs: KernelArgs, order: seq<string>)
    requires IsIterationOrder(kargs, order)
    ensures IsIterationOrder(kargs - {InitKey}, Others(order))
  {
    OthersDistinct(order);
    var names := Others(order);
    forall i | 0 <= i < |names| ensures names[i] in kargs - {InitKey} {
      assert names[i] in names;
    }
  }

  /** The `i`-th other field renders the `i`-th name other than `init`. */
  lemma {:induction false} OtherFieldsOfOthers(kargs: KernelArgs, order: seq<string>)
    requires forall i :: 0 <= i < |order| ==> order[i] in kargs
    ensures |OtherFields(kargs, order)| == |Others(order)|
    ensures forall i :: 0 <= i < |Others(order)| ==>
      Others(order)[i] in kargs && OtherFields(kargs, order)[i] == RenderField(Others(order)[i], kargs[Others(order)[i]])
  {
    if order != [] {
      var n := |order|;
      var pre := order[..n - 1];
      OtherFieldsOfOthers(kargs, pre);
      var names := Others(order);
      var fields := OtherFields(kargs, order);
      forall i | 0 <= i < |names|
        ensures names[i] in kargs && fields[i] == RenderField(names[i], kargs[names[i]])
      {
        assert names[i] in names;
        if i < |Others(pre)| {
          assert names[i] == Others(pre)[i];
          assert fields[i] == OtherFields(kargs, pre)[i];
        }
      }
    }
  }

  /**
    The other fields are one field per name other than `init`, in iteration
    order, rendered as `key`, `key=` or `key=value`; without `init` the result
    is their join.
   */
  lemma SerializedFields(kargs: KernelArgs, order: seq<string>)
    requires IsIterationOrder(kargs, order)
    ensures IsIterationOrder(kargs - {InitKey}, Others(order))
    ensures |OtherFields(kargs, order)| == |Others(order)|
    ensures forall i :: 0 <= i < |Others(order)| ==>
      Others(order)[i] in kargs && OtherFields(kargs, order)[i] == RenderField(Others(order)[i], kargs[Others(order)[i]])
    ensures |OtherFields(kargs, order)| == |kargs| - (if InitKey in kargs then 1 else 0)
    ensures forall f :: f in OtherFields(kargs, order) ==>
      exists k :: k in kargs && k != InitKey && f == RenderField(k, kargs[k])
    ensures forall k :: k in kargs && k != InitKey ==> RenderField(k, kargs[k]) in OtherFields(kargs, order)
    ensures InitKey !in kargs ==> Serialized(kargs, order) == Join(OtherFields(kargs, order), " ")
    ensures kargs == map[] ==> Serialized(kargs, order) == ""
  {
    IterationOrderLength(kargs, order);
    OtherFieldsShape(kargs, order);
    OthersIsIterationOrder(kargs, order);
    OtherFieldsOfOthers(kargs, order);
  }

  /**
    With `init` present, the result ends with one space and the `init` field,
    after all the other fields; when `init` is the only entry the result is
    that space and field alone.
   */
  lemma InitSerializedLast(kargs: KernelArgs, order: seq<string>)
    requires IsIterationOrder(kargs, order)
    requires InitKey in kargs
    ensures var s := Serialized(kargs, order);
      var last := " " + RenderField(InitKey, kargs[InitKey]);
      && |last| <= |s|
      && s[|s| - |last|..] == last
      && s[..|s| - |last|] == Join(OtherFields(kargs, order), " ")
    ensures kargs.Keys == {InitKey} ==>
      Serialized(kargs, order) == " " + RenderField(InitKey, kargs[InitKey])
  {
    var joined := Join(OtherFields(kargs, order), " ");
    var last := " " + RenderField(InitKey, kargs[InitKey]);
    assert Serialized(kargs, order) == joined + last;
    SplitConcat(joined, last);
    if kargs.Keys == {InitKey} {
      SerializedFields(kargs, order);
      assert |kargs| == 1;
      assert joined == [];
    }
  }

  lemma SplitConcat<T>(a: seq<T>, b: seq<T>)
    ensures (a + b)[..|a|] == a && (a + b)[|a|..] == b
  {
  }

  // ---------------------------------------------------------------------------
  // The round trip

  /**
    Maps that serializing and parsing reproduce: every entry other than `init`
    is a token entry whose field holds no `init=`. The `init` value is free.
   */
  predicate RoundTrippable(kargs: KernelArgs) {
    forall k :: k in kargs && k != InitKey ==>
      IsTokenEntry(k, kargs[k]) && !Contains(RenderField(k, kargs[k]), InitMarker)
  }

  lemma RenderedTokenEntry(key: string, value: Option<string>)
    requires IsTokenEntry(key, value)
    ensures RenderField(key, value) != [] && NoSpace(RenderField(key, value))
  {
    if value.Some? {
      var f := RenderField(key, value);
      forall j | 0 <= j < |f| ensures !IsSpace(f[j]) {
        if j < |key| {
          assert f[j] == key[j];
        } else if j > |key| {
          assert f[j] == value.value[j - |key| - 1];
        }
      }
    }
  }

  /** Fields that split into token entries and hold no `init=`. */
  predicate AreTokenFields(fields: seq<string>) {
    forall i :: 0 <= i < |fields| ==>
      fields[i] != [] && NoSpace(fields[i]) && !Contains(fields[i], InitMarker)
  }

  /** The entries of the names in `order` other than `init`. */
  function OrderedEntries(kargs: KernelArgs, order: seq<string>): KernelArgs
    requires forall i :: 0 <= i < |order| ==> order[i] in kargs
  {
    map k | k in order && k != InitKey :: kargs[k]
  }

  lemma {:induction false} OtherFieldsAreTokens(kargs: KernelArgs, order: seq<string>)
    requires forall i :: 0 <= i < |order| ==> order[i] in kargs
    requires RoundTrippable(kargs)
    ensures AreTokenFields(OtherFields(kargs, order))
  {
    if order != [] {
      var n := |order|;
      var last := order[n - 1];
      OtherFieldsAreTokens(kargs, order[..n - 1]);
      if last != InitKey {
        RenderedTokenEntry(last, kargs[last]);
      }
    }
  }

  lemma TokeniseSnoc(fields: seq<string>, f: string)
    ensures Tokenise(fields + [f]) == Tokenise(fields)[SplitField(f).0 := SplitField(f).1]
  {
    assert (fields + [f])[..|fields|] == fields;
  }

  lemma OrderedEntriesSnoc(kargs: KernelArgs, order: seq<string>)
    requires order != []
    requires forall i :: 0 <= i < |order| ==> order[i] in kargs
    ensures var pre, last := order[..|order| - 1], order[|order| - 1];
      OrderedEntries(kargs, order) ==
        if last == InitKey then OrderedEntries(kargs, pre)
        else OrderedEntries(kargs, pre)[last := kargs[last]]
  {
    var pre := order[..|order| - 1];
    assert order == pre + [order[|order| - 1]];
  }

  /** Parsing the other fields gives back the entries they were rendered from. */
  lemma {:induction false} TokeniseOtherFields(kargs: KernelArgs, order: seq<string>)
    requires forall i :: 0 <= i < |order| ==> order[i] in kargs
    requires RoundTrippable(kargs)
    ensures Tokenise(OtherFields(kargs, order)) == OrderedEntries(kargs, order)
  {
    if order == [] {
      assert OrderedEntries(kargs, order) == map[];
    } else {
      var n := |order|;
      var pre := order[..n - 1];
      var last := order[n - 1];
      TokeniseOtherFields(kargs, pre);
      OrderedEntriesSnoc(kargs, order);
      if last != InitKey {
        var f := RenderField(last, kargs[last]);
        SplitFieldOfRendered(last, kargs[last]);
        TokeniseSnoc(OtherFields(kargs, pre), f);
      }
    }
  }

  /** Without `init`, parsing the joined token fields tokenises them. */
  lemma ParseOfJoin(fields: seq<string>)
    requires AreTokenFields(fields)
    ensures Parse(Join(fields, " ")) == Tokenise(fields)
  {
    JoinAvoids(fields, InitMarker);
    ParseWithoutMarker(Join(fields, " "));
    FieldsOfJoined(fields);
  }

  lemma JoinInitFlagAvoidsMarker(fields: seq<string>)
    requires AreTokenFields(fields)
    ensures !Contains(Join(fields, " ") + " " + InitKey, InitMarker)
  {
    var joined := Join(fields, " ");
    JoinAvoids(fields, InitMarker);
    forall j | OccursAt(joined + " " + InitKey, InitMarker, j) ensures false {
      OccursAroundSpace(joined, InitKey, InitMarker, j);
    }
  }

  lemma FieldsOfInitFlag()
    ensures Fields(" " + InitKey) == [InitKey]
  {
    FieldsOfSpaceThen(InitKey);
    FieldsOfWordThen(InitKey, []);
    assert InitKey + [] == InitKey;
  }

  lemma FieldsOfJoinInitFlag(fields: seq<string>)
    requires AreTokenFields(fields)
    ensures Fields(Join(fields, " ") + " " + InitKey) == fields + [InitKey]
  {
    var joined := Join(fields, " ");
    FieldsOfJoin(fields, " " + InitKey);
    assert joined + (" " + InitKey) == joined + " " + InitKey;
    FieldsOfInitFlag();
  }

  /** A trailing `init` flag is tokenised like any other field, and last. */
  lemma ParseOfJoinInitFlag(fields: seq<string>)
    requires AreTokenFields(fields)
    ensures Parse(Join(fields, " ") + " " + RenderField(InitKey, None)) == Tokenise(fields)[InitKey := None]
  {
    var s := Join(fields, " ") + " " + InitKey;
    JoinInitFlagAvoidsMarker(fields);
    ParseWithoutMarker(s);
    FieldsOfJoinInitFlag(fields);
    SplitFieldOfRendered(InitKey, None);
    TokeniseSnoc(fields, InitKey);
  }

  /** In the joined fields followed by a space and `init=`, that `init=` is the first one. */
  lemma JoinInitValueFirstMarker(joined: string, v: string)
    requires !Contains(joined, InitMarker)
    ensures forall j :: 0 <= j < |joined + " "| ==> !OccursAt(joined + " " + InitMarker + v, InitMarker, j)
  {
    var s := joined + " " + InitMarker + v;
    assert s == joined + " " + (InitMarker + v);
    forall j | 0 <= j < |joined + " "| && OccursAt(s, InitMarker, j) ensures false {
      OccursAroundSpace(joined, InitMarker + v, InitMarker, j);
    }
  }

  /** A trailing `init=` field is cut off verbatim; the fields before it are tokenised. */
  lemma ParseOfJoinInitValue(fields: seq<string>, v: string)
    requires AreTokenFields(fields)
    ensures Parse(Join(fields, " ") + " " + RenderField(InitKey, Some(v))) == Tokenise(fields)[InitKey := Some(v)]
  {
    var joined := Join(fields, " ");
    var pre := joined + " ";
    var s := pre + InitMarker + v;
    assert joined + " " + RenderField(InitKey, Some(v)) == s;
    JoinAvoids(fields, InitMarker);
    JoinInitValueFirstMarker(joined, v);
    ParseWithMarker(s, pre, v);
    JoinEnds(fields);
    TrimSpaceOfPadded(joined);
    FieldsOfJoined(fields);
  }

  lemma OrderedEntriesOfIterationOrder(kargs: KernelArgs, order: seq<string>)
    requires IsIterationOrder(kargs, order)
    ensures OrderedEntries(kargs, order) == kargs - {InitKey}
  {
  }

  lemma RestoreKey(m: KernelArgs, k: string)
    requires k in m
    ensures (m - {k})[k := m[k]] == m
  {
  }

  /**
    Serializing a round-trippable map in any iteration order and parsing the
    result gives the map back.
   */
  lemma RoundTrip(kargs: KernelArgs, order: seq<string>)
    requires IsIterationOrder(kargs, order)
    requires RoundTrippable(kargs)
    ensures Parse(Serialized(kargs, order)) == kargs
  {
    var fields := OtherFields(kargs, order);
    OtherFieldsAreTokens(kargs, order);
    TokeniseOtherFields(kargs, order);
    OrderedEntriesOfIterationOrder(kargs, order);
    if InitKey !in kargs {
      ParseOfJoin(fields);
      assert kargs - {InitKey} == kargs;
    } else {
      RestoreKey(kargs, InitKey);
      match kargs[InitKey]
      case None =>
        ParseOfJoinInitFlag(fields);
      case Some(v) =>
        ParseOfJoinInitValue(fields, v);
    }
  }

  /** A parsed command line survives serializing and parsing again, in any iteration order. */
  lemma ParseSerializeParse(rawString: string, order: seq<string>)
    requires IsIterationOrder(Parse(rawString), order)
    ensures Parse(Serialized(Parse(rawString), order)) == Parse(rawString)
  {
    ParseEntries(rawString);
    RoundTrip(Parse(rawString), order);
  }
}
