/** `WriteLayout`'s assembly of the Layout type: the fields contributed by the
    layout schema and by every trace are sorted by name and de-duplicated
    (first field of each name wins), enums sharing a name are merged by
    concatenating their values, and ten extra axis fields are appended. */
module Layout {
  import opened Wrappers
  import opened GoStrings
  import opened Sequences
  import opened TypeGraph

  // ---------------------------------------------------------------------
  // Field de-duplication

  /** The fields left after dropping every field whose name already occurred
      earlier: the first field of each name is kept, in place. */
  function DedupFields(fs: seq<Field>): seq<Field>
  {
    if |fs| == 0 then []
    else
      var p := fs[..|fs| - 1];
      var f := fs[|fs| - 1];
      if f.name in FieldNames(p) then DedupFields(p) else DedupFields(p) + [f]
  }

  /** One step of the loop: the next field is appended exactly when its name is new. */
  lemma DedupFieldsSnoc(p: seq<Field>, f: Field)
    ensures DedupFields(p + [f]) == if f.name in FieldNames(p) then DedupFields(p) else DedupFields(p) + [f]
  {
    assert (p + [f])[..|p|] == p;
  }

  /** The names of the kept fields are the distinct names of the input in
      order of first occurrence: no name twice, none lost, none invented. */
  lemma {:induction false} DedupFieldsNames(fs: seq<Field>)
    ensures FieldNames(DedupFields(fs)) == Uniq(FieldNames(fs))
  {
    if |fs| > 0 {
      var p := fs[..|fs| - 1];
      var f := fs[|fs| - 1];
      assert fs == p + [f];
      DedupFieldsNames(p);
      NamesSnoc(p, f, FieldName);
      UniqSnoc(FieldNames(p), f.name);
      if f.name !in FieldNames(p) {
        NamesSnoc(DedupFields(p), f, FieldName);
      }
    }
  }

  /** The kept fields are a subsequence of the input. */
  lemma {:induction false} DedupFieldsSubsequence(fs: seq<Field>)
    ensures IsSubsequence(DedupFields(fs), fs)
  {
    if |fs| > 0 {
      var p := fs[..|fs| - 1];
      var f := fs[|fs| - 1];
      DedupFieldsSubsequence(p);
      var d := DedupFields(p);
      if f.name !in FieldNames(p) {
        assert (d + [f])[..|d|] == d;
      }
    }
  }

  /** Each field `DedupFields` keeps is the first field of that name. */
  lemma {:induction false} DedupKeepsFirstOccurrence(fs: seq<Field>)
    ensures forall k :: 0 <= k < |DedupFields(fs)| ==>
      DedupFields(fs)[k].name in FieldNames(fs) &&
      DedupFields(fs)[k] == fs[IndexOf(FieldNames(fs), DedupFields(fs)[k].name)]
  {
    if |fs| > 0 {
      var p := fs[..|fs| - 1];
      var f := fs[|fs| - 1];
      assert fs == p + [f];
      NamesSnoc(p, f, FieldName);
      DedupKeepsFirstOccurrence(p);
      var d := DedupFields(p);
      var r := DedupFields(fs);
      forall k | 0 <= k < |r|
        ensures r[k].name in FieldNames(fs) && r[k] == fs[IndexOf(FieldNames(fs), r[k].name)]
      {
        if k < |d| {
          assert r[k] == d[k];
          IndexOfSnoc(FieldNames(p), f.name, d[k].name);
        } else {
          assert f.name !in FieldNames(p) && r[k] == f;
          assert FieldNames(fs)[..|p|] == FieldNames(p);
          IndexOfUnique(FieldNames(fs), f.name, |p|);
        }
      }
    }
  }

  /** The loop of `WriteLayout`: a map remembers the names already seen, and a
      field is appended only when its name is new. */
  method DedupFieldsLoop(fields: seq<Field>) returns (unique: seq<Field>)
    ensures unique == DedupFields(fields)
  {
    unique := [];
    var fieldMap: map<string, int> := map[];
    for i := 0 to |fields|
      invariant unique == DedupFields(fields[..i])
      invariant forall n :: n in fieldMap <==> n in FieldNames(fields[..i])
    {
      var field := fields[i];
      assert fields[..i + 1] == fields[..i] + [field];
      DedupFieldsSnoc(fields[..i], field);
      NamesSnoc(fields[..i], field, FieldName);
      if field.name !in fieldMap {
        fieldMap := fieldMap[field.name := i];
        unique := unique + [field];
      }
    }
    assert fields[..|fields|] == fields;
  }

  /** Dropping fields from a list sorted by name leaves it sorted, and since
      no name repeats, the names are now strictly ascending. */
  lemma DedupOfSortedIsStrictlySorted(fs: seq<Field>)
    requires SortedBy(fs, FieldName)
    ensures SortedBy(DedupFields(fs), FieldName)
    ensures StrictlySorted(FieldNames(DedupFields(fs)))
  {
    DedupFieldsNames(fs);
    DedupFieldsSubsequence(fs);
    SubsequenceOfSorted(DedupFields(fs), fs, FieldName);
    SortedNames(DedupFields(fs), FieldName);
  }

  /** `sort.Sort` is not stable, so which of several same-named fields comes
      first, and so survives, is not determined. The list of names that
      survives is: it is the same for every order sorted by name. */
  lemma {:induction false} DedupNamesIndependentOfSortOrder(a: seq<Field>, b: seq<Field>)
    requires SortedBy(a, FieldName) && SortedBy(b, FieldName)
    requires multiset(a) == multiset(b)
    ensures FieldNames(DedupFields(a)) == FieldNames(DedupFields(b))
  {
    var na, nb := FieldNames(DedupFields(a)), FieldNames(DedupFields(b));
    DedupOfSortedIsStrictlySorted(a);
    DedupOfSortedIsStrictlySorted(b);
    DedupFieldsNames(a);
    DedupFieldsSubsequence(a);
    DedupFieldsNames(b);
    DedupFieldsSubsequence(b);
    PermutationHasSameNames(a, b, FieldName);
    PermutationHasSameNames(b, a, FieldName);
    assert forall n :: n in na <==> n in nb;
    StrictlySortedUnique(na, nb);
  }

  // ---------------------------------------------------------------------
  // Enum merge

  /** The values of all enums named `name`, in order, concatenated. */
  function ValuesNamed(es: seq<EnumFile>, name: string): seq<EnumValue>
  {
    if |es| == 0 then []
    else ValuesNamed(es[..|es| - 1], name) + (if es[|es| - 1].name == name then es[|es| - 1].values else [])
  }

  lemma {:induction false} ValuesNamedAbsent(es: seq<EnumFile>, name: string)
    requires name !in EnumNames(es)
    ensures ValuesNamed(es, name) == []
  {
    if |es| > 0 {
      NamesPrefix(es, |es| - 1, EnumName);
      assert EnumNames(es)[|es| - 1] == es[|es| - 1].name;
      ValuesNamedAbsent(es[..|es| - 1], name);
    }
  }

  lemma {:induction false} TotalValuesUpdate(es: seq<EnumFile>, i: nat, e: EnumFile)
    requires i < |es|
    ensures TotalValues(es[i := e]) + |es[i].values| == TotalValues(es) + |e.values|
  {
    var n := |es| - 1;
    if i < n {
      assert es[i := e][..n] == es[..n][i := e];
      TotalValuesUpdate(es[..n], i, e);
    } else {
      assert es[i := e][..n] == es[..n];
    }
  }

  /** One enum folded into the merged list: appended when its name is new,
      otherwise its values are appended to the entry of that name. */
  function MergeInto(acc: seq<EnumFile>, e: EnumFile): seq<EnumFile>
  {
    if e.name in EnumNames(acc) then
      var i := IndexOf(EnumNames(acc), e.name);
      acc[i := acc[i].(values := acc[i].values + e.values)]
    else
      acc + [e]
  }

  /** What a merged list of the enums `p` promises about `p`. */
  ghost predicate MergedFrom(acc: seq<EnumFile>, p: seq<EnumFile>)
  {
    && EnumNames(acc) == Uniq(EnumNames(p))
    && (forall k :: 0 <= k < |acc| ==> acc[k].values == ValuesNamed(p, acc[k].name))
    && TotalValues(acc) == TotalValues(p)
  }

  lemma ValuesNamedSnoc(p: seq<EnumFile>, e: EnumFile, name: string)
    ensures ValuesNamed(p + [e], name) == ValuesNamed(p, name) + (if e.name == name then e.values else [])
  {
    assert (p + [e])[..|p|] == p;
  }

  lemma MergeIntoExisting(acc: seq<EnumFile>, p: seq<EnumFile>, e: EnumFile)
    requires MergedFrom(acc, p)
    requires e.name in EnumNames(acc)
    ensures MergedFrom(MergeInto(acc, e), p + [e])
  {
    var es := p + [e];
    var i := IndexOf(EnumNames(acc), e.name);
    var merged := acc[i := acc[i].(values := acc[i].values + e.values)];
    assert MergeInto(acc, e) == merged;
    assert EnumNames(merged) == Uniq(EnumNames(es)) by {
      assert EnumNames(merged) == EnumNames(acc);
      assert e.name in EnumNames(p);
      NamesSnoc(p, e, EnumName);
      UniqSnoc(EnumNames(p), e.name);
    }
    assert TotalValues(merged) == TotalValues(es) by {
      TotalValuesUpdate(acc, i, merged[i]);
      assert es[..|p|] == p;
    }
    forall k | 0 <= k < |acc|
      ensures merged[k].values == ValuesNamed(es, merged[k].name)
    {
      ValuesNamedSnoc(p, e, acc[k].name);
      if k != i {
        assert Distinct(EnumNames(acc));
        assert EnumNames(acc)[k] != EnumNames(acc)[i];
      }
    }
  }

  lemma MergeIntoNew(acc: seq<EnumFile>, p: seq<EnumFile>, e: EnumFile)
    requires MergedFrom(acc, p)
    requires e.name !in EnumNames(acc)
    ensures MergedFrom(MergeInto(acc, e), p + [e])
  {
    var es := p + [e];
    var merged := acc + [e];
    assert MergeInto(acc, e) == merged;
    assert EnumNames(merged) == Uniq(EnumNames(es)) by {
      NamesSnoc(p, e, EnumName);
      NamesSnoc(acc, e, EnumName);
      UniqSnoc(EnumNames(p), e.name);
    }
    assert TotalValues(merged) == TotalValues(es) by {
      assert merged[..|acc|] == acc;
      assert es[..|p|] == p;
    }
    forall k | 0 <= k < |merged|
      ensures merged[k].values == ValuesNamed(es, merged[k].name)
    {
      ValuesNamedSnoc(p, e, merged[k].name);
      if k == |acc| {
        ValuesNamedAbsent(p, e.name);
      } else {
        assert EnumNames(acc)[k] == acc[k].name;
      }
    }
  }

  /** Enums sharing a name merged into one, folding `MergeInto` from left
      to right. */
  function MergeEnums(es: seq<EnumFile>): seq<EnumFile>
  {
    if |es| == 0 then [] else MergeInto(MergeEnums(es[..|es| - 1]), es[|es| - 1])
  }

  /** The first enum of each name stays where it is and receives the values of
      every later enum of that name, appended in order; the names are the
      distinct input names in order of first occurrence; no value is dropped
      and none is de-duplicated. */
  lemma {:induction false} MergeEnumsSpec(es: seq<EnumFile>)
    ensures EnumNames(MergeEnums(es)) == Uniq(EnumNames(es))
    ensures forall k :: 0 <= k < |MergeEnums(es)| ==> MergeEnums(es)[k].values == ValuesNamed(es, MergeEnums(es)[k].name)
    ensures TotalValues(MergeEnums(es)) == TotalValues(es)
  {
    if |es| > 0 {
      var p := es[..|es| - 1];
      var e := es[|es| - 1];
      assert es == p + [e];
      MergeEnumsSpec(p);
      var acc := MergeEnums(p);
      if e.name in EnumNames(acc) {
        MergeIntoExisting(acc, p, e);
      } else {
        MergeIntoNew(acc, p, e);
      }
    }
  }

  /** The loop of `WriteLayout`: a map from enum name to its position in the
      result; an enum with a new name is appended, otherwise its values are
      appended to the enum already there. */
  method MergeEnumsLoop(enums: seq<EnumFile>) returns (unique: seq<EnumFile>)
    ensures unique == MergeEnums(enums)
  {
    unique := [];
    var enumMap: map<string, int> := map[];
    for j := 0 to |enums|
      invariant unique == MergeEnums(enums[..j])
      invariant forall n :: n in enumMap <==> n in EnumNames(unique)
      invariant forall n :: n in enumMap ==> 0 <= enumMap[n] < |unique| && unique[enumMap[n]].name == n
    {
      var enum := enums[j];
      assert enums[..j + 1][..j] == enums[..j];
      assert MergeEnums(enums[..j + 1]) == MergeInto(unique, enum);
      if enum.name !in enumMap {
        NamesSnoc(unique, enum, EnumName);
        unique := unique + [enum];
        enumMap := enumMap[enum.name := |unique| - 1];
      } else {
        var previous := enumMap[enum.name];
        MergeEnumsSpec(enums[..j]);
        IndexOfDistinct(EnumNames(unique), enum.name, previous);
        var updated := unique[previous := unique[previous].(values := unique[previous].values + enum.values)];
        assert EnumNames(updated) == EnumNames(unique);
        unique := updated;
      }
    }
    assert enums[..|enums|] == enums;
  }

  /** Merging enums sorted by name yields strictly ascending names. */
  lemma MergeOfSortedIsStrictlySorted(es: seq<EnumFile>)
    requires SortedBy(es, EnumName)
    ensures StrictlySorted(EnumNames(MergeEnums(es)))
  {
    MergeEnumsSpec(es);
    SortedNames(es, EnumName);
    SubsequenceOfSorted(Uniq(EnumNames(es)), EnumNames(es), Id);
  }

  /** Two contributions of one enum name: the merged enum holds all four
      values, the shared one twice. */
  lemma MergeKeepsRepeatedValues(name: string, a: EnumValue, b: EnumValue, c: EnumValue)
    ensures MergeEnums([EnumFile(name, [a, b]), EnumFile(name, [b, c])]) == [EnumFile(name, [a, b, b, c])]
  {
    var first, second := EnumFile(name, [a, b]), EnumFile(name, [b, c]);
    var es := [first, second];
    assert es[..1] == [first];
    assert [first][..0] == [];
    assert MergeEnums([first]) == [first];
    assert EnumNames([first]) == [name];
    assert MergeEnums(es) == MergeInto([first], second);
    assert IndexOf([name], name) == 0;
    assert [a, b] + [b, c] == [a, b, b, c];
  }

  // ---------------------------------------------------------------------
  // Axis fix-up

  /** The field `WriteLayout` adds for axis number `i` of the family `family`:
      name `<family>Axis<i>`, wire name the lower-cased `<family>axis<i>`, and
      the type `Layout<family>axis` of the family's base axis. */
  function AxisField(family: char, i: nat): Field
    requires i < 10
  {
    Field([family] + "Axis" + Digit(i),
          ToLower([family] + "axis" + Digit(i)),
          "Layout" + [family] + "axis",
          [[family] + " Axis number " + Digit(i)])
  }

  /** The inner loop: axis numbers 2 to 6 of one family. */
  function AxisFamily(family: char): seq<Field>
  {
    seq(5, j requires 0 <= j < 5 => AxisField(family, j + 2))
  }

  /** The outer loop: the X family, then the Y family. */
  function AxisFields(): seq<Field>
  {
    AxisFamily('X') + AxisFamily('Y')
  }

  lemma AxisFieldName(family: char, i: nat)
    requires 2 <= i <= 6
    ensures AxisField(family, i).name == [family, 'A', 'x', 'i', 's', ('0' as int + i) as char]
  {
  }

  lemma AxisNames(family: char)
    ensures |AxisFamily(family)| == 5
    ensures forall j :: 0 <= j < 5 ==>
      AxisFamily(family)[j].name == [family, 'A', 'x', 'i', 's', ('0' as int + j + 2) as char]
  {
    forall j | 0 <= j < 5
      ensures AxisFamily(family)[j].name == [family, 'A', 'x', 'i', 's', ('0' as int + j + 2) as char]
    {
      AxisFieldName(family, j + 2);
    }
  }

  /** A capital letter and its lower-case form lower-case alike. */
  lemma LowerCaseInsensitive(s: string, t: string)
    requires |s| == |t|
    requires forall i :: 0 <= i < |s| ==> LowerChar(s[i]) == LowerChar(t[i])
    ensures ToLower(s) == ToLower(t)
  {
  }

  /** The wire name of each axis field is its name lower-cased. */
  lemma AxisWireName(family: char, i: nat)
    requires 2 <= i <= 6
    ensures AxisField(family, i).jsonName == ToLower(AxisField(family, i).name)
  {
    var lower, upper := [family] + "axis" + Digit(i), [family] + "Axis" + Digit(i);
    assert forall k :: 0 <= k < |lower| ==> LowerChar(lower[k]) == LowerChar(upper[k]);
    LowerCaseInsensitive(lower, upper);
  }

  lemma AxisFamilyNames(family: char)
    ensures FieldNames(AxisFamily(family)) ==
      [[family, 'A', 'x', 'i', 's', '2'], [family, 'A', 'x', 'i', 's', '3'], [family, 'A', 'x', 'i', 's', '4'],
       [family, 'A', 'x', 'i', 's', '5'], [family, 'A', 'x', 'i', 's', '6']]
  {
    AxisNames(family);
  }

  lemma AxisFamilyWireNames(family: char)
    ensures forall j :: 0 <= j < |AxisFamily(family)| ==>
      AxisFamily(family)[j].jsonName == ToLower(AxisFamily(family)[j].name)
  {
    forall j | 0 <= j < 5
      ensures AxisFamily(family)[j].jsonName == ToLower(AxisFamily(family)[j].name)
    {
      AxisWireName(family, j + 2);
    }
  }

  lemma AxisFamilyTypes(family: char)
    ensures forall j :: 0 <= j < |AxisFamily(family)| ==>
      AxisFamily(family)[j].typ == ['L', 'a', 'y', 'o', 'u', 't', family, 'a', 'x', 'i', 's']
  {
  }

  /** The ten axis fields: exactly `XAxis2`..`XAxis6` then `YAxis2`..`YAxis6`,
      each with the lower-cased name as its wire name (`xaxis2`, ...) and the
      type of its family's base axis. */
  lemma AxisFieldsSpec()
    ensures |AxisFields()| == 10
    ensures FieldNames(AxisFields()) == ["XAxis2", "XAxis3", "XAxis4", "XAxis5", "XAxis6",
                                         "YAxis2", "YAxis3", "YAxis4", "YAxis5", "YAxis6"]
    ensures forall k :: 0 <= k < 10 ==> AxisFields()[k].jsonName == ToLower(AxisFields()[k].name)
    ensures forall k :: 0 <= k < 5 ==> AxisFields()[k].typ == "LayoutXaxis"
    ensures forall k :: 5 <= k < 10 ==> AxisFields()[k].typ == "LayoutYaxis"
  {
    var xs, ys := AxisFamily('X'), AxisFamily('Y');
    AxisFamilyNames('X');
    AxisFamilyNames('Y');
    AxisFamilyWireNames('X');
    AxisFamilyWireNames('Y');
    AxisFamilyTypes('X');
    AxisFamilyTypes('Y');
    assert FieldNames(xs + ys) == FieldNames(xs) + FieldNames(ys);
    assert forall k :: 5 <= k < 10 ==> AxisFields()[k] == ys[k - 5];
  }

  // ---------------------------------------------------------------------
  // Assembly

  /** The fields the attribute walker returned for the layout schema and then
      for each trace's layout part, in that order, concatenated; the first
      failure stops the walk and is reported wrapped. */
  function CollectFields(parses: seq<Result<seq<Field>>>): Result<seq<Field>>
  {
    if |parses| == 0 then Ok([])
    else
      match parses[0]
      case Err(e) => Err(Wrapped("cannot parse attributes", e))
      case Ok(fs) =>
        match CollectFields(parses[1..])
        case Err(e) => Err(e)
        case Ok(rest) => Ok(fs + rest)
  }

  /** Collection succeeds exactly when every walk did; on failure the error is
      the first failing walk's, wrapped; on success the collected fields are
      exactly those the walks returned. */
  lemma {:induction false} CollectFieldsSpec(parses: seq<Result<seq<Field>>>)
    ensures CollectFields(parses).Ok? <==> forall k :: 0 <= k < |parses| ==> parses[k].Ok?
    ensures CollectFields(parses).Err? ==>
      exists k :: 0 <= k < |parses| && parses[k].Err? && (forall j :: 0 <= j < k ==> parses[j].Ok?) &&
        CollectFields(parses).error == Wrapped("cannot parse attributes", parses[k].error)
    ensures CollectFields(parses).Ok? ==>
      forall f :: f in CollectFields(parses).value <==>
        exists k :: 0 <= k < |parses| && parses[k].Ok? && f in parses[k].value
  {
    if |parses| > 0 {
      var tail := parses[1..];
      CollectFieldsSpec(tail);
      assert forall k :: 1 <= k < |parses| ==> parses[k] == tail[k - 1];
      match parses[0]
      case Err(e) =>
      case Ok(fs) =>
        match CollectFields(tail)
        case Err(e) =>
          var k :| 0 <= k < |tail| && tail[k].Err? && (forall j :: 0 <= j < k ==> tail[j].Ok?) &&
            e == Wrapped("cannot parse attributes", tail[k].error);
          assert parses[k + 1] == tail[k];
        case Ok(rest) =>
          forall f
            ensures f in fs + rest <==> exists k :: 0 <= k < |parses| && parses[k].Ok? && f in parses[k].value
          {
            if f in rest {
              var k :| 0 <= k < |tail| && tail[k].Ok? && f in tail[k].value;
              assert parses[k + 1] == tail[k];
            }
            if exists k :: 0 <= k < |parses| && parses[k].Ok? && f in parses[k].value {
              var k :| 0 <= k < |parses| && parses[k].Ok? && f in parses[k].value;
              if k > 0 {
                assert tail[k - 1] == parses[k];
              }
            }
          }
    }
  }

  lemma {:induction false} TotalValuesConcat(a: seq<EnumFile>, b: seq<EnumFile>)
    ensures TotalValues(a + b) == TotalValues(a) + TotalValues(b)
  {
    if |b| > 0 {
      var b' := b[..|b| - 1];
      assert (a + b)[..|a + b| - 1] == a + b';
      TotalValuesConcat(a, b');
    } else {
      assert a + b == a;
    }
  }

  lemma TotalValuesRemove(b: seq<EnumFile>, j: nat)
    requires j < |b|
    ensures TotalValues(b) == TotalValues(b[..j] + b[j + 1..]) + |b[j].values|
  {
    assert b == b[..j] + [b[j]] + b[j + 1..];
    TotalValuesConcat(b[..j] + [b[j]], b[j + 1..]);
    TotalValuesConcat(b[..j], [b[j]]);
    TotalValuesConcat(b[..j], b[j + 1..]);
    assert [b[j]][..0] == [];
  }

  /** Reordering enums does not change how many values they hold. */
  lemma {:induction false} TotalValuesPermutation(a: seq<EnumFile>, b: seq<EnumFile>)
    requires multiset(a) == multiset(b)
    ensures TotalValues(a) == TotalValues(b)
  {
    if |a| > 0 {
      var a' := a[..|a| - 1];
      var j := RemoveMatching(a, b);
      var b' := b[..j] + b[j + 1..];
      assert a == a' + [a[|a| - 1]];
      TotalValuesConcat(a', [a[|a| - 1]]);
      TotalValuesPermutation(a', b');
      TotalValuesRemove(b, j);
    } else {
      assert |multiset(b)| == 0;
    }
  }

  lemma {:induction false} ValuesNamedConcat(a: seq<EnumFile>, b: seq<EnumFile>, name: string)
    ensures ValuesNamed(a + b, name) == ValuesNamed(a, name) + ValuesNamed(b, name)
  {
    if |b| > 0 {
      var b' := b[..|b| - 1];
      assert (a + b)[..|a + b| - 1] == a + b';
      ValuesNamedConcat(a, b', name);
    } else {
      assert a + b == a;
    }
  }

  lemma ValuesNamedRemove(b: seq<EnumFile>, j: nat, name: string)
    requires j < |b|
    ensures multiset(ValuesNamed(b, name)) ==
      multiset(ValuesNamed(b[..j] + b[j + 1..], name)) + multiset(ValuesNamed([b[j]], name))
  {
    assert b == b[..j] + [b[j]] + b[j + 1..];
    ValuesNamedConcat(b[..j] + [b[j]], b[j + 1..], name);
    ValuesNamedConcat(b[..j], [b[j]], name);
    ValuesNamedConcat(b[..j], b[j + 1..], name);
  }

  /** Reordering the enums keeps, for every name, the values of that name
      (in some order). */
  lemma {:induction false} ValuesNamedPermutation(a: seq<EnumFile>, b: seq<EnumFile>, name: string)
    requires multiset(a) == multiset(b)
    ensures multiset(ValuesNamed(a, name)) == multiset(ValuesNamed(b, name))
  {
    if |a| > 0 {
      var a' := a[..|a| - 1];
      var j := RemoveMatching(a, b);
      ValuesNamedPermutation(a', b[..j] + b[j + 1..], name);
      ValuesNamedRemove(b, j, name);
      ValuesNamedRemove(a, |a| - 1, name);
      assert a[..|a| - 1] + a[|a|..] == a';
    } else {
      assert |multiset(b)| == 0;
    }
  }

  /** `WriteLayout` up to rendering: walk the layout schema and every trace's
      layout part, sort the fields by name and drop repeated names, sort the
      enums by name and merge those sharing a name, then append the axis
      fields. The walker's outputs are inputs here; `sort.Sort` is modelled by
      a stable sort, one of the orders it may produce. */
  function WriteLayout(parses: seq<Result<seq<Field>>>, objects: seq<Struct>, enums: seq<EnumFile>,
                       flagLists: seq<FlagList>): Result<TypeFile>
  {
    match CollectFields(parses)
    case Err(e) => Err(e)
    case Ok(fields) =>
      var unique := DedupFields(SortBy(fields, FieldName));
      var merged := MergeEnums(SortBy(enums, EnumName));
      Ok(TypeFile(Struct("Layout", "Plot layout options", unique + AxisFields()), objects, merged, flagLists))
  }

  /** The Layout type: it fails exactly when a walk fails; otherwise it is
      named "Layout", its fields are every collected name exactly once in
      strictly ascending order, each an actually collected field, followed by
      the ten axis fields; its enums have strictly ascending distinct names,
      one per collected enum name, and hold every collected value; the nested
      structs and flag lists are passed through. */
  lemma WriteLayoutSpec(parses: seq<Result<seq<Field>>>, objects: seq<Struct>, enums: seq<EnumFile>,
                        flagLists: seq<FlagList>)
    ensures WriteLayout(parses, objects, enums, flagLists).Ok? <==> forall k :: 0 <= k < |parses| ==> parses[k].Ok?
    ensures WriteLayout(parses, objects, enums, flagLists).Ok? ==>
      var t := WriteLayout(parses, objects, enums, flagLists).value;
      var collected := CollectFields(parses).value;
      var n := |t.mainType.fields| - 10;
      && t.mainType.name == "Layout"
      && n >= 0
      && t.mainType.fields[n..] == AxisFields()
      && StrictlySorted(FieldNames(t.mainType.fields[..n]))
      && (forall m :: m in FieldNames(t.mainType.fields[..n]) <==> m in FieldNames(collected))
      && (forall f :: f in t.mainType.fields[..n] ==> f in collected)
      && StrictlySorted(EnumNames(t.enums))
      && (forall m :: m in EnumNames(t.enums) <==> m in EnumNames(enums))
      && TotalValues(t.enums) == TotalValues(enums)
      && (forall k :: 0 <= k < |t.enums| ==>
            multiset(t.enums[k].values) == multiset(ValuesNamed(enums, t.enums[k].name)))
      && t.objects == objects && t.flagLists == flagLists
  {
    CollectFieldsSpec(parses);
    if CollectFields(parses).Ok? {
      var collected := CollectFields(parses).value;
      var sorted := SortBy(collected, FieldName);
      var unique := DedupFields(sorted);
      var sortedEnums := SortBy(enums, EnumName);
      var merged := MergeEnums(sortedEnums);
      var fs := unique + AxisFields();
      assert fs[..|unique|] == unique && fs[|unique|..] == AxisFields();
      AxisFieldsSpec();
      DedupOfSortedIsStrictlySorted(sorted);
      DedupFieldsNames(sorted);
      DedupFieldsSubsequence(sorted);
      SubsequenceMembers(unique, sorted);
      PermutationHasSameNames(sorted, collected, FieldName);
      PermutationHasSameNames(collected, sorted, FieldName);
      forall f | f in unique ensures f in collected {
        assert f in multiset(sorted);
      }
      MergeOfSortedIsStrictlySorted(sortedEnums);
      MergeEnumsSpec(sortedEnums);
      PermutationHasSameNames(sortedEnums, enums, EnumName);
      PermutationHasSameNames(enums, sortedEnums, EnumName);
      TotalValuesPermutation(sortedEnums, enums);
      forall k | 0 <= k < |merged|
        ensures multiset(merged[k].values) == multiset(ValuesNamed(enums, merged[k].name))
      {
        ValuesNamedPermutation(sortedEnums, enums, merged[k].name);
      }
    }
  }
}
