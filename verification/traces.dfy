/** The per-trace side of the renderer: `WriteTrace` builds one trace type
    whose first field is the `type` discriminator, `CreateTraces` creates
    every trace in ascending name order and stops at the first failure, and
    `WriteUnmarshal` lists the trace type names in ascending order. */
module Traces {
  import opened Wrappers
  import opened GoStrings
  import opened Sequences
  import opened TypeGraph

  /** The part of a trace's schema entry the renderer reads itself: its
      `type` and its meta description. Its attributes are consumed by the
      attribute walk, whose outcome is a parameter of `WriteTrace`. */
  datatype Trace = Trace(typ: string, description: string)

  /** What `WriteTrace` produces: the trace's type file, plus the name and
      value of the generated `TraceType...` constant that `GetType` returns. */
  datatype TraceOutput = TraceOutput(file: TypeFile, constName: string, tag: string)

  /** The field every trace type starts with; it carries the trace's type on
      the wire. */
  const Discriminator: Field := Field("Type", "type", "TraceType", ["is the type of the plot"])

  /** `WriteTrace` up to template rendering, for a trace the schema holds:
      `camel` is the camel-casing of identifiers, and `parsed`, `objects`,
      `enums`, `flagLists` are what the attribute walk of this trace returned
      and collected. */
  function WriteTrace(traces: map<string, Trace>, traceName: string, camel: string -> string,
                      parsed: Result<seq<Field>>, objects: seq<Struct>, enums: seq<EnumFile>,
                      flagLists: seq<FlagList>): Result<TraceOutput>
    requires traceName in traces
  {
    var trace := traces[traceName];
    var name := camel(trace.typ);
    match parsed
    case Err(e) => Err(Wrapped("cannot parse attributes", e))
    case Ok(fields) =>
      Ok(TraceOutput(TypeFile(Struct(name, trace.description, [Discriminator] + fields), objects, enums, flagLists),
                     "TraceType" + name, traceName))
  }

  /** The parsed attribute fields of a trace type: everything after the
      discriminator. */
  function AttributeFields(t: TraceOutput): seq<Field>
  {
    var fs := t.file.mainType.fields;
    if |fs| == 0 then [] else fs[1..]
  }

  /** A trace type fails exactly when its attribute walk fails, with that
      error wrapped; otherwise it is named after the camel-cased `type` of the
      schema entry, its first field is the discriminator and the parsed fields
      follow in order and can be read back, the generated constant is named
      after the type and holds the schema key (not the `type`), and the
      collected objects, enums and flag lists are passed through. */
  lemma WriteTraceSpec(traces: map<string, Trace>, traceName: string, camel: string -> string,
                       parsed: Result<seq<Field>>, objects: seq<Struct>, enums: seq<EnumFile>,
                       flagLists: seq<FlagList>)
    requires traceName in traces
    ensures WriteTrace(traces, traceName, camel, parsed, objects, enums, flagLists).Ok? <==> parsed.Ok?
    ensures parsed.Err? ==>
      WriteTrace(traces, traceName, camel, parsed, objects, enums, flagLists).error ==
        Wrapped("cannot parse attributes", parsed.error)
    ensures parsed.Ok? ==>
      var t := WriteTrace(traces, traceName, camel, parsed, objects, enums, flagLists).value;
      var m := t.file.mainType;
      && m.name == camel(traces[traceName].typ)
      && m.description == traces[traceName].description
      && |m.fields| == |parsed.value| + 1
      && m.fields[0] == Discriminator
      && (forall i :: 0 <= i < |parsed.value| ==> m.fields[i + 1] == parsed.value[i])
      && AttributeFields(t) == parsed.value
      && t.constName == "TraceType" + m.name
      && t.tag == traceName
      && t.file.objects == objects && t.file.enums == enums && t.file.flagLists == flagLists
  {
    if parsed.Ok? {
      var fs := [Discriminator] + parsed.value;
      assert fs[1..] == parsed.value;
    }
  }

  /** The discriminator's wire name is its Go name in lower case, the same
      convention the layout's axis fields follow. */
  lemma DiscriminatorWireName()
    ensures Discriminator.jsonName == ToLower(Discriminator.name)
    ensures Discriminator.typ == "TraceType"
  {
    assert ToLower("Type")[0] == 't';
  }

  // ---------------------------------------------------------------------
  // Creating every trace

  /** The outcome of creating traces: the names attempted, in order, and the
      error that stopped the run, if any. */
  datatype Run = Run(attempted: seq<string>, failure: Option<Error>)

  /** Creating the given traces one after another: the first failure is
      wrapped and ends the run. `create` is creating one trace file. */
  function RunInOrder(names: seq<string>, create: string -> Option<Error>): Run
  {
    if |names| == 0 then Run([], None)
    else
      match create(names[0])
      case Some(e) => Run([names[0]], Some(Wrapped("cannot create trace", e)))
      case None =>
        var rest := RunInOrder(names[1..], create);
        Run([names[0]] + rest.attempted, rest.failure)
  }

  /** Runs attempt a prefix of the names; every attempt but the last
      succeeded; the run fails exactly when its last attempt did, with that
      error wrapped, and succeeds exactly when it attempted every name. */
  lemma {:induction false} RunInOrderSpec(names: seq<string>, create: string -> Option<Error>)
    ensures var r := RunInOrder(names, create);
      && |r.attempted| <= |names|
      && r.attempted == names[..|r.attempted|]
      && (forall i :: 0 <= i < |r.attempted| - 1 ==> create(r.attempted[i]).None?)
      && (r.failure.None? <==> r.attempted == names && forall i :: 0 <= i < |names| ==> create(names[i]).None?)
      && (r.failure.Some? ==>
            |r.attempted| > 0 && create(r.attempted[|r.attempted| - 1]).Some? &&
            r.failure.value == Wrapped("cannot create trace", create(r.attempted[|r.attempted| - 1]).value))
  {
    if |names| > 0 {
      var tail := names[1..];
      RunInOrderSpec(tail, create);
      var rest := RunInOrder(tail, create);
      match create(names[0])
      case Some(e) =>
      case None =>
        var a := [names[0]] + rest.attempted;
        assert a[1..] == rest.attempted;
        assert names == [names[0]] + tail;
        forall i | 0 <= i < |names| && i > 0 ensures names[i] == tail[i - 1] { }
    }
  }

  /** `CreateTraces`: the schema's trace names, enumerated in `order` (Go's
      unspecified map order), are sorted and created in that order. */
  function CreateTraces(order: seq<string>, create: string -> Option<Error>): Run
  {
    RunInOrder(SortBy(order, Id), create)
  }

  /** The attempted traces are the first names of the sorted list. */
  lemma CreateTracesPrefix(order: seq<string>, create: string -> Option<Error>)
    ensures |CreateTraces(order, create).attempted| <= |order|
    ensures CreateTraces(order, create).attempted == SortBy(order, Id)[..|CreateTraces(order, create).attempted|]
  {
    var sorted := SortBy(order, Id);
    RunInOrderSpec(sorted, create);
    assert |multiset(sorted)| == |multiset(order)|;
  }

  /** Traces are attempted in ascending name order. */
  lemma CreateTracesInOrder(order: seq<string>, create: string -> Option<Error>)
    ensures SortedBy(CreateTraces(order, create).attempted, Id)
  {
    RunInOrderSpec(SortBy(order, Id), create);
  }

  /** The run succeeds exactly when every trace can be created. */
  lemma CreateTracesSucceeds(order: seq<string>, create: string -> Option<Error>)
    ensures CreateTraces(order, create).failure.None? <==> forall n :: n in order ==> create(n).None?
  {
    var sorted := SortBy(order, Id);
    RunInOrderSpec(sorted, create);
    assert forall n :: n in order <==> n in multiset(sorted);
    if CreateTraces(order, create).failure.None? {
      forall n | n in order ensures create(n).None? {
        var j :| 0 <= j < |sorted| && sorted[j] == n;
      }
    }
  }

  /** A failed run reports the smallest failing trace name, wrapped. */
  lemma CreateTracesFirstFailure(order: seq<string>, create: string -> Option<Error>)
    requires CreateTraces(order, create).failure.Some?
    ensures var r := CreateTraces(order, create);
      |r.attempted| > 0 &&
      var last := r.attempted[|r.attempted| - 1];
      && last in order && create(last).Some?
      && r.failure.value == Wrapped("cannot create trace", create(last).value)
      && forall n :: n in order && create(n).Some? ==> LessEq(last, n)
  {
    var sorted := SortBy(order, Id);
    RunInOrderSpec(sorted, create);
    var r := RunInOrder(sorted, create);
    var k := |r.attempted| - 1;
    var last := r.attempted[k];
    assert last == sorted[k];
    assert last in multiset(order);
    forall j | 0 <= j < k ensures create(sorted[j]).None? {
      assert sorted[j] == r.attempted[j];
    }
    forall n | n in order && create(n).Some? ensures LessEq(last, n) {
      assert n in multiset(sorted);
      var j :| 0 <= j < |sorted| && sorted[j] == n;
      if j == k {
        LessEqReflexive(n);
      }
    }
  }

  /** The run does not depend on the order in which the map enumerated the
      trace names. */
  lemma CreateTracesOrderIndependent(a: seq<string>, b: seq<string>, create: string -> Option<Error>)
    requires multiset(a) == multiset(b)
    ensures CreateTraces(a, create) == CreateTraces(b, create)
  {
    SortedPermutationUnique(SortBy(a, Id), SortBy(b, Id));
  }

  // ---------------------------------------------------------------------
  // The unmarshal type list

  /** The camel-cased name of every trace, in enumeration order. */
  function CamelAll(order: seq<string>, camel: string -> string): seq<string>
  {
    Names(order, camel)
  }

  /** `WriteUnmarshal`'s list of types, before rendering. */
  function UnmarshalTypes(order: seq<string>, camel: string -> string): seq<string>
  {
    SortBy(CamelAll(order, camel), Id)
  }

  /** The listed types are sorted, one per trace, and are exactly the
      camel-cased trace names, with multiplicity. */
  lemma UnmarshalTypesSpec(order: seq<string>, camel: string -> string)
    ensures SortedBy(UnmarshalTypes(order, camel), Id)
    ensures |UnmarshalTypes(order, camel)| == |order|
    ensures multiset(UnmarshalTypes(order, camel)) == multiset(CamelAll(order, camel))
    ensures forall t :: t in UnmarshalTypes(order, camel) <==> exists n :: n in order && camel(n) == t
  {
    var c := CamelAll(order, camel);
    var r := UnmarshalTypes(order, camel);
    assert |multiset(r)| == |multiset(c)|;
    forall t ensures t in r <==> exists n :: n in order && camel(n) == t {
      assert t in r <==> t in multiset(c);
      if t in c {
        var i :| 0 <= i < |c| && c[i] == t;
        assert order[i] in order;
      }
      if exists n :: n in order && camel(n) == t {
        var n :| n in order && camel(n) == t;
        var i :| 0 <= i < |order| && order[i] == n;
        assert c[i] == t;
      }
    }
  }

  lemma CamelAllConcat(a: seq<string>, b: seq<string>, camel: string -> string)
    ensures CamelAll(a + b, camel) == CamelAll(a, camel) + CamelAll(b, camel)
  {
  }

  /** Camel-casing a permutation of the names gives a permutation of the
      camel-cased names. */
  lemma CamelAllRemove(b: seq<string>, j: nat, camel: string -> string)
    requires j < |b|
    ensures multiset(CamelAll(b, camel)) == multiset(CamelAll(b[..j] + b[j + 1..], camel)) + multiset{camel(b[j])}
  {
    assert b == b[..j] + [b[j]] + b[j + 1..];
    CamelAllConcat(b[..j] + [b[j]], b[j + 1..], camel);
    CamelAllConcat(b[..j], [b[j]], camel);
    CamelAllConcat(b[..j], b[j + 1..], camel);
  }

  lemma {:induction false} CamelAllPermutation(a: seq<string>, b: seq<string>, camel: string -> string)
    requires multiset(a) == multiset(b)
    ensures multiset(CamelAll(a, camel)) == multiset(CamelAll(b, camel))
  {
    if |a| > 0 {
      var a' := a[..|a| - 1];
      var j := RemoveMatching(a, b);
      CamelAllPermutation(a', b[..j] + b[j + 1..], camel);
      CamelAllRemove(b, j, camel);
      CamelAllRemove(a, |a| - 1, camel);
      assert a[..|a| - 1] + a[|a|..] == a';
    } else {
      assert |multiset(b)| == 0;
    }
  }

  /** The type list does not depend on the map's enumeration order. */
  lemma UnmarshalTypesOrderIndependent(a: seq<string>, b: seq<string>, camel: string -> string)
    requires multiset(a) == multiset(b)
    ensures UnmarshalTypes(a, camel) == UnmarshalTypes(b, camel)
  {
    CamelAllPermutation(a, b, camel);
    SortedPermutationUnique(UnmarshalTypes(a, camel), UnmarshalTypes(b, camel));
  }
}
