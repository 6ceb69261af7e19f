/** The required-key variants of a JSON Schema: the alternative sets of keys
    an object must have, as the RPC parity check derives them. */
module RequiredKeys {
  import opened Text

  /** A schema as the check reads it: a value that is no object, or the last
      segment of its reference if it has one, its required keys and its
      applicators, an absent applicator being an empty list. */
  datatype Schema =
    | NotObject
    | Node(ref: Option<string>, required: set<string>, oneOf: seq<Schema>, anyOf: seq<Schema>, allOf: seq<Schema>)

  /** A schema document: its own members, its `$defs`, and the `$defs` of its members in order. */
  datatype Document = Document(direct: map<string, Schema>, defs: map<string, Schema>, localDefs: seq<map<string, Schema>>)

  function FindLocal(maps: seq<map<string, Schema>>, name: string): Option<Schema> {
    if maps == [] then None
    else if name in maps[0] then Some(maps[0][name])
    else FindLocal(maps[1..], name)
  }

  function FindIn(document: Document, name: string): Option<Schema> {
    if name in document.direct then Some(document.direct[name])
    else if name in document.defs then Some(document.defs[name])
    else FindLocal(document.localDefs, name)
  }

  function Find(documents: seq<Document>, name: string): Option<Schema> {
    if documents == [] then None
    else if FindIn(documents[0], name).Some? then FindIn(documents[0], name)
    else Find(documents[1..], name)
  }

  method FindNamedSchema(documents: seq<Document>, name: string) returns (r: Option<Schema>)
    ensures r == Find(documents, name)
  {
    assert documents[0..] == documents;
    for i := 0 to |documents|
      invariant Find(documents, name) == Find(documents[i..], name)
    {
      assert documents[i..][1..] == documents[i + 1..];
      if name in documents[i].direct {
        return Some(documents[i].direct[name]);
      }
      if name in documents[i].defs {
        return Some(documents[i].defs[name]);
      }
      var maps := documents[i].localDefs;
      assert maps[0..] == maps;
      for j := 0 to |maps|
        invariant FindLocal(maps, name) == FindLocal(maps[j..], name)
      {
        assert maps[j..][1..] == maps[j + 1..];
        if name in maps[j] {
          return Some(maps[j][name]);
        }
      }
    }
    return None;
  }

  /** Where a document may define a name, in the order of the search. */
  function Layers(document: Document): seq<map<string, Schema>> {
    [document.direct, document.defs] + document.localDefs
  }

  /** Layer `m` is the first of `layers` that has the name. */
  ghost predicate IsFirstLayer(layers: seq<map<string, Schema>>, name: string, m: nat) {
    m < |layers| && name in layers[m] && forall n :: 0 <= n < m ==> name !in layers[n]
  }

  ghost predicate Defines(document: Document, name: string) {
    exists m :: 0 <= m < |Layers(document)| && name in Layers(document)[m]
  }

  lemma {:induction false} FindLocalExactly(maps: seq<map<string, Schema>>, name: string)
    ensures FindLocal(maps, name).None? <==> forall m :: 0 <= m < |maps| ==> name !in maps[m]
    ensures forall m: nat :: IsFirstLayer(maps, name, m) ==> FindLocal(maps, name) == Some(maps[m][name])
    decreases |maps|
  {
    if maps != [] && name !in maps[0] {
      var rest := maps[1..];
      FindLocalExactly(rest, name);
      assert forall m :: 1 <= m < |maps| ==> maps[m] == rest[m - 1];
      assert forall m :: 0 <= m < |rest| ==> rest[m] == maps[m + 1];
      forall m: nat | IsFirstLayer(maps, name, m) ensures FindLocal(maps, name) == Some(maps[m][name]) {
        assert IsFirstLayer(rest, name, m - 1);
      }
    }
  }

  lemma {:induction false} FindInExactly(document: Document, name: string)
    ensures FindIn(document, name).Some? <==> Defines(document, name)
    ensures forall m: nat :: IsFirstLayer(Layers(document), name, m) ==> FindIn(document, name) == Some(Layers(document)[m][name])
  {
    var layers := Layers(document);
    FindLocalExactly(document.localDefs, name);
    assert layers[0] == document.direct && layers[1] == document.defs;
    assert forall m :: 2 <= m < |layers| ==> layers[m] == document.localDefs[m - 2];
    assert forall m :: 0 <= m < |document.localDefs| ==> document.localDefs[m] == layers[m + 2];
    forall m: nat | IsFirstLayer(layers, name, m) ensures FindIn(document, name) == Some(layers[m][name]) {
      if m >= 2 {
        assert name !in layers[0] && name !in layers[1];
        assert IsFirstLayer(document.localDefs, name, m - 2);
      }
    }
  }

  /** Document `d` is the first that defines the name, and layer `m` its first that does. */
  ghost predicate IsFirstDefined(documents: seq<Document>, name: string, d: nat, m: nat) {
    && d < |documents| && (forall e :: 0 <= e < d ==> !Defines(documents[e], name))
    && IsFirstLayer(Layers(documents[d]), name, m)
  }

  /** The search finds a name exactly when some document defines it, and then in
      the first document that does: its own members, its definitions, or those of its members. */
  lemma {:induction false} FindExactly(documents: seq<Document>, name: string)
    ensures Find(documents, name).Some? <==> exists d :: 0 <= d < |documents| && Defines(documents[d], name)
    ensures forall d: nat, m: nat :: IsFirstDefined(documents, name, d, m) ==>
              Find(documents, name) == Some(Layers(documents[d])[m][name])
    decreases |documents|
  {
    if documents != [] {
      var rest := documents[1..];
      FindInExactly(documents[0], name);
      FindExactly(rest, name);
      assert forall d :: 1 <= d < |documents| ==> documents[d] == rest[d - 1];
      assert forall d :: 0 <= d < |rest| ==> rest[d] == documents[d + 1];
      forall d: nat, m: nat | IsFirstDefined(documents, name, d, m)
        ensures Find(documents, name) == Some(Layers(documents[d])[m][name])
      {
        if d > 0 {
          assert !Defines(documents[0], name);
          assert forall e :: 0 <= e < d - 1 ==> !Defines(rest[e], name);
          assert IsFirstDefined(rest, name, d - 1, m);
        } else {
          assert Defines(documents[0], name);
        }
      }
    }
  }

  /** Every name a document can resolve. */
  function Names(documents: seq<Document>): set<string> {
    set d, name | 0 <= d < |documents| && name in NamesIn(documents[d]) :: name
  }

  function NamesIn(document: Document): set<string> {
    document.direct.Keys + document.defs.Keys +
    set m, name | 0 <= m < |document.localDefs| && name in document.localDefs[m] :: name
  }

  lemma {:induction false} FoundIsNamed(documents: seq<Document>, name: string)
    ensures Find(documents, name).Some? ==> name in Names(documents)
    decreases |documents|
  {
    if documents != [] {
      FoundInIsNamed(documents[0].localDefs, name);
      FoundIsNamed(documents[1..], name);
      if FindIn(documents[0], name).Some? {
        assert 0 <= 0 < |documents| && name in NamesIn(documents[0]);
      }
      if name in Names(documents[1..]) {
        var d :| 0 <= d < |documents[1..]| && name in NamesIn(documents[1..][d]);
        assert name in NamesIn(documents[d + 1]);
      }
    }
  }

  lemma {:induction false} FoundInIsNamed(maps: seq<map<string, Schema>>, name: string)
    ensures FindLocal(maps, name).Some? ==> exists m :: 0 <= m < |maps| && name in maps[m]
    decreases |maps|
  {
    if maps != [] && name !in maps[0] {
      FoundInIsNamed(maps[1..], name);
      if FindLocal(maps[1..], name).Some? {
        var m :| 0 <= m < |maps[1..]| && name in maps[1..][m];
        assert name in maps[m + 1];
      }
    }
  }

  // ---------- the variants ----------

  type Keys = set<string>

  /** Each variant once, at its first place. */
  function Distinct(vs: seq<Keys>): seq<Keys> {
    if vs == [] then []
    else
      var front := Distinct(vs[..|vs| - 1]);
      if vs[|vs| - 1] in front then front else front + [vs[|vs| - 1]]
  }

  function AddTo(outer: Keys, vs: seq<Keys>): (r: seq<Keys>)
    ensures |r| == |vs| && forall i :: 0 <= i < |vs| ==> r[i] == outer + vs[i]
  {
    seq(|vs|, i requires 0 <= i < |vs| => outer + vs[i])
  }

  function Product(vs: seq<Keys>, ws: seq<Keys>): seq<Keys> {
    if vs == [] then [] else Product(vs[..|vs| - 1], ws) + AddTo(vs[|vs| - 1], ws)
  }

  function Variants(schema: Schema, documents: seq<Document>, seen: set<string>): seq<Keys>
    decreases Names(documents) - seen, schema, 1
  {
    match schema
    case NotObject => [{}]
    case Node(Some(name), _, _, _, _) =>
      if name in seen then [{}]
      else
        (match Find(documents, name)
         case None => [{}]
         case Some(found) =>
           FoundIsNamed(documents, name);
           Variants(found, documents, seen + {name}))
    case Node(None, required, oneOf, anyOf, allOf) =>
      if oneOf != [] then Distinct(AnyVariants(required, oneOf, documents, seen))
      else if anyOf != [] then Distinct(AnyVariants(required, anyOf, documents, seen))
      else if allOf != [] then Distinct(AllVariants(required, allOf, documents, seen))
      else [required]
  }

  function AnyVariants(outer: Keys, branches: seq<Schema>, documents: seq<Document>, seen: set<string>): seq<Keys>
    decreases Names(documents) - seen, branches, 0
  {
    if branches == [] then []
    else
      AnyVariants(outer, branches[..|branches| - 1], documents, seen) +
      AddTo(outer, Variants(branches[|branches| - 1], documents, seen))
  }

  function AllVariants(outer: Keys, branches: seq<Schema>, documents: seq<Document>, seen: set<string>): seq<Keys>
    decreases Names(documents) - seen, branches, 0
  {
    if branches == [] then [outer]
    else
      Product(AllVariants(outer, branches[..|branches| - 1], documents, seen),
              Variants(branches[|branches| - 1], documents, seen))
  }

  /** The derivation as it runs: recursion, with a loop that rebinds the list. */
  method RequiredKeyVariants(schema: Schema, documents: seq<Document>, seen: set<string>) returns (vs: seq<Keys>)
    ensures vs == Variants(schema, documents, seen)
    decreases Names(documents) - seen, schema, 1
  {
    match schema
    case NotObject => return [{}];
    case Node(Some(name), _, _, _, _) =>
      if name in seen {
        return [{}];
      }
      var found := FindNamedSchema(documents, name);
      if found.None? {
        return [{}];
      }
      FoundIsNamed(documents, name);
      vs := RequiredKeyVariants(found.value, documents, seen + {name});
    case Node(None, required, oneOf, anyOf, allOf) =>
      var branches := if oneOf != [] then oneOf else anyOf;
      vs := [];
      if branches != [] {
        for i := 0 to |branches|
          invariant vs == AnyVariants(required, branches[..i], documents, seen)
        {
          var more := RequiredKeyVariants(branches[i], documents, seen);
          assert branches[..i + 1][..i] == branches[..i];
          vs := vs + AddTo(required, more);
        }
        assert branches[..|branches|] == branches;
        return Distinct(vs);
      }
      vs := [required];
      for i := 0 to |allOf|
        invariant vs == AllVariants(required, allOf[..i], documents, seen)
      {
        var more := RequiredKeyVariants(allOf[i], documents, seen);
        assert allOf[..i + 1][..i] == allOf[..i];
        vs := Product(vs, more);
      }
      assert allOf[..|allOf|] == allOf;
      if allOf != [] {
        vs := Distinct(vs);
      }
  }

  // ---------- membership ----------

  lemma {:induction false} DistinctMember(vs: seq<Keys>)
    ensures forall v :: v in Distinct(vs) <==> v in vs
    ensures NoRepeats(Distinct(vs))
    decreases |vs|
  {
    if vs != [] {
      DistinctMember(vs[..|vs| - 1]);
      SplitLast(vs);
    }
  }

  /** Some variant asks for no key outside `k`. */
  ghost predicate Met(vs: seq<Keys>, k: Keys) {
    exists v :: v in vs && v <= k
  }

  lemma {:induction false} ProductMet(vs: seq<Keys>, ws: seq<Keys>, k: Keys)
    ensures Met(Product(vs, ws), k) <==> Met(vs, k) && Met(ws, k)
    decreases |vs|
  {
    if vs != [] {
      var last := vs[|vs| - 1];
      ProductMet(vs[..|vs| - 1], ws, k);
      SplitLast(vs);
      if v, w :| v in vs && v <= k && w in ws && w <= k {
        if v == last {
          var i :| 0 <= i < |ws| && ws[i] == w;
          assert AddTo(last, ws)[i] == last + w <= k;
          assert AddTo(last, ws)[i] in Product(vs, ws);
        }
      }
      if v :| v in Product(vs, ws) && v <= k {
        if v in AddTo(last, ws) {
          var i :| 0 <= i < |ws| && AddTo(last, ws)[i] == v;
          assert ws[i] <= k && last <= k;
        }
      }
    }
  }

  lemma EmptyMet(k: Keys)
    ensures Met([{}], k)
  {
    var none: Keys := {};
    assert none in [none];
  }

  lemma {:induction false} AddToMet(outer: Keys, vs: seq<Keys>, k: Keys)
    ensures Met(AddTo(outer, vs), k) <==> outer <= k && Met(vs, k)
  {
    if outer <= k && Met(vs, k) {
      var v :| v in vs && v <= k;
      var i :| 0 <= i < |vs| && vs[i] == v;
      assert AddTo(outer, vs)[i] in AddTo(outer, vs) && AddTo(outer, vs)[i] <= k;
    }
    if Met(AddTo(outer, vs), k) {
      var r :| r in AddTo(outer, vs) && r <= k;
      var i :| 0 <= i < |vs| && AddTo(outer, vs)[i] == r;
      assert vs[i] in vs && vs[i] <= k;
    }
  }

  lemma {:induction false} ConcatMet(a: seq<Keys>, b: seq<Keys>, k: Keys)
    ensures Met(a + b, k) <==> Met(a, k) || Met(b, k)
  {
    if Met(a, k) {
      var v :| v in a && v <= k;
      assert v in a + b;
    }
    if Met(b, k) {
      var v :| v in b && v <= k;
      assert v in a + b;
    }
  }

  lemma {:induction false} DistinctMet(vs: seq<Keys>, k: Keys)
    ensures Met(Distinct(vs), k) <==> Met(vs, k)
  {
    DistinctMember(vs);
  }

  ghost predicate SomeMet(branches: seq<Schema>, documents: seq<Document>, seen: set<string>, k: Keys) {
    exists i :: 0 <= i < |branches| && Met(Variants(branches[i], documents, seen), k)
  }

  ghost predicate EachMet(branches: seq<Schema>, documents: seq<Document>, seen: set<string>, k: Keys) {
    forall i :: 0 <= i < |branches| ==> Met(Variants(branches[i], documents, seen), k)
  }

  lemma MetLast(branches: seq<Schema>, documents: seq<Document>, seen: set<string>, k: Keys)
    requires branches != []
    ensures var front, last := branches[..|branches| - 1], Met(Variants(branches[|branches| - 1], documents, seen), k);
            && (SomeMet(branches, documents, seen, k) <==> SomeMet(front, documents, seen, k) || last)
            && (EachMet(branches, documents, seen, k) <==> EachMet(front, documents, seen, k) && last)
  {
    var front := branches[..|branches| - 1];
    assert forall i :: 0 <= i < |front| ==> front[i] == branches[i];
    if i :| 0 <= i < |front| && Met(Variants(front[i], documents, seen), k) {
      assert Met(Variants(branches[i], documents, seen), k);
    }
  }

  lemma {:induction false} AnyMet(outer: Keys, branches: seq<Schema>, documents: seq<Document>, seen: set<string>, k: Keys)
    ensures Met(AnyVariants(outer, branches, documents, seen), k) <==> outer <= k && SomeMet(branches, documents, seen, k)
    decreases |branches|
  {
    if branches != [] {
      var n := |branches| - 1;
      AnyMet(outer, branches[..n], documents, seen, k);
      MetLast(branches, documents, seen, k);
      AddToMet(outer, Variants(branches[n], documents, seen), k);
      ConcatMet(AnyVariants(outer, branches[..n], documents, seen),
                AddTo(outer, Variants(branches[n], documents, seen)), k);
    }
  }

  lemma {:induction false} AllMet(outer: Keys, branches: seq<Schema>, documents: seq<Document>, seen: set<string>, k: Keys)
    ensures Met(AllVariants(outer, branches, documents, seen), k) <==> outer <= k && EachMet(branches, documents, seen, k)
    decreases |branches|
  {
    if branches == [] {
      assert outer in [outer];
    } else {
      var n := |branches| - 1;
      AllMet(outer, branches[..n], documents, seen, k);
      MetLast(branches, documents, seen, k);
      ProductMet(AllVariants(outer, branches[..n], documents, seen), Variants(branches[n], documents, seen), k);
    }
  }

  // ---------- the variants, one by one ----------

  /** `v` is `outer` and one variant of each branch. */
  ghost predicate IsUnion(outer: Keys, branches: seq<Schema>, documents: seq<Document>, seen: set<string>, v: Keys) {
    if branches == [] then v == outer
    else
      exists u, w ::
        && IsUnion(outer, branches[..|branches| - 1], documents, seen, u)
        && w in Variants(branches[|branches| - 1], documents, seen) && v == u + w
  }

  /** `v` is `outer` and a variant of one branch. */
  ghost predicate IsChoice(outer: Keys, branches: seq<Schema>, documents: seq<Document>, seen: set<string>, v: Keys) {
    exists i, w :: 0 <= i < |branches| && w in Variants(branches[i], documents, seen) && v == outer + w
  }

  lemma {:induction false} AddToMember(outer: Keys, vs: seq<Keys>, v: Keys)
    ensures v in AddTo(outer, vs) <==> exists w :: w in vs && v == outer + w
  {
    if w :| w in vs && v == outer + w {
      var i :| 0 <= i < |vs| && vs[i] == w;
      assert AddTo(outer, vs)[i] == v;
    }
    if v in AddTo(outer, vs) {
      var i :| 0 <= i < |vs| && AddTo(outer, vs)[i] == v;
      assert vs[i] in vs;
    }
  }

  lemma {:induction false} ProductMember(vs: seq<Keys>, ws: seq<Keys>, v: Keys)
    ensures v in Product(vs, ws) <==> exists u, w :: u in vs && w in ws && v == u + w
    decreases |vs|
  {
    if vs != [] {
      ProductMember(vs[..|vs| - 1], ws, v);
      AddToMember(vs[|vs| - 1], ws, v);
      SplitLast(vs);
    }
  }

  lemma {:induction false} AnyMember(outer: Keys, branches: seq<Schema>, documents: seq<Document>, seen: set<string>, v: Keys)
    ensures v in AnyVariants(outer, branches, documents, seen) <==> IsChoice(outer, branches, documents, seen, v)
    decreases |branches|
  {
    if branches != [] {
      var n := |branches| - 1;
      AnyMember(outer, branches[..n], documents, seen, v);
      AddToMember(outer, Variants(branches[n], documents, seen), v);
      if i, w :| 0 <= i < n && w in Variants(branches[..n][i], documents, seen) && v == outer + w {
        assert w in Variants(branches[i], documents, seen);
      }
      if i, w :| 0 <= i < n && w in Variants(branches[i], documents, seen) && v == outer + w {
        assert w in Variants(branches[..n][i], documents, seen);
      }
    }
  }

  lemma {:induction false} AllMember(outer: Keys, branches: seq<Schema>, documents: seq<Document>, seen: set<string>, v: Keys)
    ensures v in AllVariants(outer, branches, documents, seen) <==> IsUnion(outer, branches, documents, seen, v)
    decreases |branches|
  {
    if branches != [] {
      var n := |branches| - 1;
      forall u ensures u in AllVariants(outer, branches[..n], documents, seen) <==> IsUnion(outer, branches[..n], documents, seen, u) {
        AllMember(outer, branches[..n], documents, seen, u);
      }
      ProductMember(AllVariants(outer, branches[..n], documents, seen), Variants(branches[n], documents, seen), v);
    }
  }

  /** Which variants a schema without a reference has: its keys with a variant of
      one branch of `oneOf`, or else of `anyOf`, or else with one of each of `allOf`. */
  lemma {:induction false} VariantsMembers(schema: Schema, documents: seq<Document>, seen: set<string>, v: Keys)
    requires schema.Node? && schema.ref.None?
    ensures v in Variants(schema, documents, seen) <==>
            if schema.oneOf != [] then IsChoice(schema.required, schema.oneOf, documents, seen, v)
            else if schema.anyOf != [] then IsChoice(schema.required, schema.anyOf, documents, seen, v)
            else IsUnion(schema.required, schema.allOf, documents, seen, v)
  {
    if schema.oneOf != [] {
      DistinctMember(AnyVariants(schema.required, schema.oneOf, documents, seen));
      AnyMember(schema.required, schema.oneOf, documents, seen, v);
    } else if schema.anyOf != [] {
      DistinctMember(AnyVariants(schema.required, schema.anyOf, documents, seen));
      AnyMember(schema.required, schema.anyOf, documents, seen, v);
    } else {
      DistinctMember(AllVariants(schema.required, schema.allOf, documents, seen));
      AllMember(schema.required, schema.allOf, documents, seen, v);
    }
  }

  ghost predicate NoRepeats(vs: seq<Keys>) {
    forall i, j :: 0 <= i < j < |vs| ==> vs[i] != vs[j]
  }

  /** No variant is listed twice. */
  lemma {:induction false} VariantsDistinct(schema: Schema, documents: seq<Document>, seen: set<string>)
    ensures NoRepeats(Variants(schema, documents, seen))
    decreases Names(documents) - seen, schema
  {
    match schema
    case NotObject =>
    case Node(Some(name), _, _, _, _) =>
      if name !in seen && Find(documents, name).Some? {
        FoundIsNamed(documents, name);
        var found := Find(documents, name).value;
        VariantsDistinct(found, documents, seen + {name});
        assert Variants(schema, documents, seen) == Variants(found, documents, seen + {name});
      }
    case Node(None, required, oneOf, anyOf, allOf) =>
      DistinctMember(AnyVariants(required, oneOf, documents, seen));
      DistinctMember(AnyVariants(required, anyOf, documents, seen));
      DistinctMember(AllVariants(required, allOf, documents, seen));
  }

  // ---------- what the variants mean ----------

  /** The constraints of a schema on a key set as the check takes them: by its
      reference alone, or else its keys and its first applicator, when the references in `held` hold and so do those that resolve to nothing. */
  predicate Governed(schema: Schema, documents: seq<Document>, held: set<string>, k: Keys) {
    match schema
    case NotObject => true
    case Node(Some(name), _, _, _, _) => Find(documents, name).None? || name in held
    case Node(None, required, oneOf, anyOf, allOf) =>
      && required <= k
      && if oneOf != [] then exists i :: 0 <= i < |oneOf| && Governed(oneOf[i], documents, held, k)
         else if anyOf != [] then exists i :: 0 <= i < |anyOf| && Governed(anyOf[i], documents, held, k)
         else forall i :: 0 <= i < |allOf| ==> Governed(allOf[i], documents, held, k)
  }

  /** Every reference in `held`, those in `seen` apart, resolves to a schema that holds. */
  ghost predicate Supported(documents: seq<Document>, held: set<string>, seen: set<string>, k: Keys) {
    forall name :: name in held && name !in seen ==>
      Find(documents, name).Some? && Governed(Find(documents, name).value, documents, held, k)
  }

  lemma {:induction false} GovernedMonotone(schema: Schema, documents: seq<Document>, held: set<string>, more: set<string>, k: Keys)
    requires held <= more && Governed(schema, documents, held, k)
    ensures Governed(schema, documents, more, k)
    decreases schema
  {
    match schema
    case NotObject =>
    case Node(Some(_), _, _, _, _) =>
    case Node(None, _, oneOf, anyOf, allOf) =>
      if oneOf != [] {
        var i :| 0 <= i < |oneOf| && Governed(oneOf[i], documents, held, k);
        GovernedMonotone(oneOf[i], documents, held, more, k);
      } else if anyOf != [] {
        var i :| 0 <= i < |anyOf| && Governed(anyOf[i], documents, held, k);
        GovernedMonotone(anyOf[i], documents, held, more, k);
      } else {
        forall i | 0 <= i < |allOf| ensures Governed(allOf[i], documents, more, k) {
          GovernedMonotone(allOf[i], documents, held, more, k);
        }
      }
  }

  lemma {:induction false} UnionSupported(documents: seq<Document>, a: set<string>, b: set<string>, seen: set<string>, k: Keys)
    requires Supported(documents, a, seen, k) && Supported(documents, b, seen, k)
    ensures Supported(documents, a + b, seen, k)
  {
    forall name | name in a + b && name !in seen
      ensures Find(documents, name).Some? && Governed(Find(documents, name).value, documents, a + b, k)
    {
      GovernedMonotone(Find(documents, name).value, documents, if name in a then a else b, a + b, k);
    }
  }

  /** Whatever a supported set of references holds, some variant is met. */
  lemma {:induction false} GovernedMeets(schema: Schema, documents: seq<Document>, held: set<string>, seen: set<string>, k: Keys)
    requires Supported(documents, held, {}, k) && Governed(schema, documents, held, k)
    ensures Met(Variants(schema, documents, seen), k)
    decreases Names(documents) - seen, schema
  {
    match schema
    case NotObject => EmptyMet(k);
    case Node(Some(name), _, _, _, _) =>
      if name in seen || Find(documents, name).None? {
        EmptyMet(k);
      } else {
        var found := Find(documents, name).value;
        FoundIsNamed(documents, name);
        GovernedMeets(found, documents, held, seen + {name}, k);
        assert Variants(schema, documents, seen) == Variants(found, documents, seen + {name});
      }
    case Node(None, required, oneOf, anyOf, allOf) =>
      if oneOf != [] || anyOf != [] {
        var branches := if oneOf != [] then oneOf else anyOf;
        var i :| 0 <= i < |branches| && Governed(branches[i], documents, held, k);
        GovernedMeets(branches[i], documents, held, seen, k);
        AnyMet(required, branches, documents, seen, k);
        DistinctMet(AnyVariants(required, branches, documents, seen), k);
      } else {
        forall i | 0 <= i < |allOf| ensures Met(Variants(allOf[i], documents, seen), k) {
          GovernedMeets(allOf[i], documents, held, seen, k);
        }
        AllMet(required, allOf, documents, seen, k);
        DistinctMet(AllVariants(required, allOf, documents, seen), k);
        assert required in [required];
      }
  }

  /** A met variant is witnessed by references that support each other. */
  lemma {:induction false} MetIsGoverned(schema: Schema, documents: seq<Document>, seen: set<string>, k: Keys) returns (held: set<string>)
    requires Met(Variants(schema, documents, seen), k)
    ensures seen <= held && Supported(documents, held, seen, k) && Governed(schema, documents, held, k)
    decreases Names(documents) - seen, schema, 1
  {
    held := seen;
    match schema
    case NotObject =>
    case Node(Some(name), _, _, _, _) =>
      if name !in seen && Find(documents, name).Some? {
        var found := Find(documents, name).value;
        FoundIsNamed(documents, name);
        assert Variants(schema, documents, seen) == Variants(found, documents, seen + {name});
        held := MetIsGoverned(found, documents, seen + {name}, k);
      }
    case Node(None, required, oneOf, anyOf, allOf) =>
      if oneOf != [] || anyOf != [] {
        var branches := if oneOf != [] then oneOf else anyOf;
        DistinctMet(AnyVariants(required, branches, documents, seen), k);
        AnyMet(required, branches, documents, seen, k);
        var i :| 0 <= i < |branches| && Met(Variants(branches[i], documents, seen), k);
        held := MetIsGoverned(branches[i], documents, seen, k);
      } else {
        DistinctMet(AllVariants(required, allOf, documents, seen), k);
        AllMet(required, allOf, documents, seen, k);
        held := AllGoverned(allOf, documents, seen, k);
      }
  }

  lemma {:induction false} AllGoverned(branches: seq<Schema>, documents: seq<Document>, seen: set<string>, k: Keys) returns (held: set<string>)
    requires forall i :: 0 <= i < |branches| ==> Met(Variants(branches[i], documents, seen), k)
    ensures seen <= held && Supported(documents, held, seen, k)
    ensures forall i :: 0 <= i < |branches| ==> Governed(branches[i], documents, held, k)
    decreases Names(documents) - seen, branches, 0
  {
    held := seen;
    if branches != [] {
      var n := |branches| - 1;
      var front := AllGoverned(branches[..n], documents, seen, k);
      var last := MetIsGoverned(branches[n], documents, seen, k);
      held := front + last;
      UnionSupported(documents, front, last, seen, k);
      GovernedMonotone(branches[n], documents, last, held, k);
      forall i | 0 <= i < n ensures Governed(branches[i], documents, held, k) {
        assert branches[..n][i] == branches[i];
        GovernedMonotone(branches[i], documents, front, held, k);
      }
    }
  }

  /** The variants are exact: a key set meets one if and only if it meets the
      constraints under some set of references that support each other, the
      greatest reading of cyclic references. */
  lemma {:induction false} VariantsExact(schema: Schema, documents: seq<Document>, k: Keys)
    ensures Met(Variants(schema, documents, {}), k) <==>
            exists held :: Supported(documents, held, {}, k) && Governed(schema, documents, held, k)
  {
    if Met(Variants(schema, documents, {}), k) {
      var held := MetIsGoverned(schema, documents, {}, k);
    }
    if held :| Supported(documents, held, {}, k) && Governed(schema, documents, held, k) {
      GovernedMeets(schema, documents, held, {}, k);
    }
  }

  // ---------- every valid object meets a variant ----------

  /** What validity by `valid` implies for the keywords of one schema. */
  ghost predicate KeywordsHold(valid: (Keys, Schema) -> bool, documents: seq<Document>, k: Keys, schema: Schema)
    requires schema.Node?
  {
    && (schema.ref.Some? && Find(documents, schema.ref.value).Some? ==> valid(k, Find(documents, schema.ref.value).value))
    && schema.required <= k
    && (schema.oneOf != [] ==> exists i :: 0 <= i < |schema.oneOf| && valid(k, schema.oneOf[i]))
    && (schema.anyOf != [] ==> exists i :: 0 <= i < |schema.anyOf| && valid(k, schema.anyOf[i]))
    && (forall i :: 0 <= i < |schema.allOf| ==> valid(k, schema.allOf[i]))
  }

  /** What schema validation implies for the keys of a valid object, whatever
      else it checks, a reference meaning what the search by last segment finds. */
  ghost predicate IsValidation(valid: (Keys, Schema) -> bool, documents: seq<Document>) {
    forall k, schema :: valid(k, schema) && schema.Node? ==> KeywordsHold(valid, documents, k, schema)
  }

  ghost function ValidNames(valid: (Keys, Schema) -> bool, documents: seq<Document>, k: Keys): set<string> {
    set name | name in Names(documents) && Find(documents, name).Some? && valid(k, Find(documents, name).value)
  }

  lemma {:induction false} ValidIsGoverned(valid: (Keys, Schema) -> bool, schema: Schema, documents: seq<Document>, k: Keys)
    requires IsValidation(valid, documents) && valid(k, schema)
    ensures Governed(schema, documents, ValidNames(valid, documents, k), k)
    decreases schema
  {
    assert schema.Node? ==> KeywordsHold(valid, documents, k, schema);
    match schema
    case NotObject =>
    case Node(Some(name), _, _, _, _) => FoundIsNamed(documents, name);
    case Node(None, required, oneOf, anyOf, allOf) =>
      if oneOf != [] || anyOf != [] {
        var branches := if oneOf != [] then oneOf else anyOf;
        var i :| 0 <= i < |branches| && valid(k, branches[i]);
        ValidIsGoverned(valid, branches[i], documents, k);
      } else {
        forall i | 0 <= i < |allOf| ensures Governed(allOf[i], documents, ValidNames(valid, documents, k), k) {
          ValidIsGoverned(valid, allOf[i], documents, k);
        }
      }
  }

  /** The key set of every valid object contains some variant, references cyclic or not. */
  lemma {:induction false} ValidMeetsVariant(valid: (Keys, Schema) -> bool, schema: Schema, documents: seq<Document>, k: Keys)
    requires IsValidation(valid, documents) && valid(k, schema)
    ensures Met(Variants(schema, documents, {}), k)
  {
    var held := ValidNames(valid, documents, k);
    forall name | name in held
      ensures Find(documents, name).Some? && Governed(Find(documents, name).value, documents, held, k)
    {
      ValidIsGoverned(valid, Find(documents, name).value, documents, k);
    }
    ValidIsGoverned(valid, schema, documents, k);
    GovernedMeets(schema, documents, held, {}, k);
  }

  function Requiring(keys: Keys): Schema {
    Node(None, keys, [], [], [])
  }

  function Referring(name: string, beside: Keys): Schema {
    Node(Some(name), beside, [], [], [])
  }

  /** Two documents with a definition of one name: a reference to the second is read
      as the first, and what the second asks for meets no variant. */
  lemma LastSegmentClash(name: string, a: string, b: string)
    requires a != b
    ensures var documents := [Document(map[], map[name := Requiring({a})], []), Document(map[], map[name := Requiring({b})], [])];
            && documents[1].defs[name].required <= {b}
            && !Met(Variants(Referring(name, {}), documents, {}), {b})
  {
    var documents := [Document(map[], map[name := Requiring({a})], []), Document(map[], map[name := Requiring({b})], [])];
    assert Find(documents, name) == Some(Requiring({a}));
    assert Variants(Referring(name, {}), documents, {}) == Variants(Requiring({a}), documents, {} + {name}) == [{a}];
  }

  // ---------- what the check does not read ----------

  /** The constraints by every keyword, `oneOf` read as `anyOf`. */
  predicate Demanded(schema: Schema, documents: seq<Document>, held: set<string>, k: Keys) {
    match schema
    case NotObject => true
    case Node(ref, required, oneOf, anyOf, allOf) =>
      && (ref.Some? ==> Find(documents, ref.value).None? || ref.value in held)
      && required <= k
      && (oneOf != [] ==> exists i :: 0 <= i < |oneOf| && Demanded(oneOf[i], documents, held, k))
      && (anyOf != [] ==> exists i :: 0 <= i < |anyOf| && Demanded(anyOf[i], documents, held, k))
      && (forall i :: 0 <= i < |allOf| ==> Demanded(allOf[i], documents, held, k))
  }

  ghost predicate Upheld(documents: seq<Document>, held: set<string>, k: Keys) {
    forall name :: name in held ==>
      Find(documents, name).Some? && Demanded(Find(documents, name).value, documents, held, k)
  }

  /** The key set meets every constraint, under references that support each other. */
  ghost predicate FullyMet(schema: Schema, documents: seq<Document>, k: Keys) {
    exists held :: Upheld(documents, held, k) && Demanded(schema, documents, held, k)
  }

  lemma {:induction false} DemandedIsGoverned(schema: Schema, documents: seq<Document>, held: set<string>, k: Keys)
    requires Demanded(schema, documents, held, k)
    ensures Governed(schema, documents, held, k)
    decreases schema
  {
    match schema
    case NotObject =>
    case Node(Some(_), _, _, _, _) =>
    case Node(None, _, oneOf, anyOf, allOf) =>
      if oneOf != [] || anyOf != [] {
        var branches := if oneOf != [] then oneOf else anyOf;
        var i :| 0 <= i < |branches| && Demanded(branches[i], documents, held, k);
        DemandedIsGoverned(branches[i], documents, held, k);
      } else {
        forall i | 0 <= i < |allOf| ensures Governed(allOf[i], documents, held, k) {
          DemandedIsGoverned(allOf[i], documents, held, k);
        }
      }
  }

  lemma {:induction false} DemandedGrows(schema: Schema, documents: seq<Document>, held: set<string>, k: Keys, more: Keys)
    requires Demanded(schema, documents, held, k) && k <= more
    ensures Demanded(schema, documents, held, more)
    decreases schema
  {
    match schema
    case NotObject =>
    case Node(_, _, oneOf, anyOf, allOf) =>
      if oneOf != [] {
        var i :| 0 <= i < |oneOf| && Demanded(oneOf[i], documents, held, k);
        DemandedGrows(oneOf[i], documents, held, k, more);
      }
      if anyOf != [] {
        var i :| 0 <= i < |anyOf| && Demanded(anyOf[i], documents, held, k);
        DemandedGrows(anyOf[i], documents, held, k, more);
      }
      forall i | 0 <= i < |allOf| ensures Demanded(allOf[i], documents, held, more) {
        DemandedGrows(allOf[i], documents, held, k, more);
      }
  }

  lemma {:induction false} FullyMetGrows(schema: Schema, documents: seq<Document>, k: Keys, more: Keys)
    requires FullyMet(schema, documents, k) && k <= more
    ensures FullyMet(schema, documents, more)
  {
    var held :| Upheld(documents, held, k) && Demanded(schema, documents, held, k);
    DemandedGrows(schema, documents, held, k, more);
    forall name | name in held ensures Demanded(Find(documents, name).value, documents, held, more) {
      DemandedGrows(Find(documents, name).value, documents, held, k, more);
    }
    assert Upheld(documents, held, more);
  }

  lemma {:induction false} FullyMetMeetsVariant(schema: Schema, documents: seq<Document>, k: Keys)
    requires FullyMet(schema, documents, k)
    ensures Met(Variants(schema, documents, {}), k)
  {
    var held :| Upheld(documents, held, k) && Demanded(schema, documents, held, k);
    DemandedIsGoverned(schema, documents, held, k);
    forall name | name in held
      ensures Find(documents, name).Some? && Governed(Find(documents, name).value, documents, held, k)
    {
      DemandedIsGoverned(Find(documents, name).value, documents, held, k);
    }
    GovernedMeets(schema, documents, held, {}, k);
  }

  /** The variants are a disjunctive normal form of every constraint if and only
      if each of them, alone, meets every constraint. */
  lemma {:induction false} NormalFormExactly(schema: Schema, documents: seq<Document>)
    ensures (forall k :: Met(Variants(schema, documents, {}), k) <==> FullyMet(schema, documents, k)) <==>
            (forall v :: v in Variants(schema, documents, {}) ==> FullyMet(schema, documents, v))
  {
    var vs := Variants(schema, documents, {});
    if forall v :: v in vs ==> FullyMet(schema, documents, v) {
      forall k ensures Met(vs, k) <==> FullyMet(schema, documents, k) {
        if FullyMet(schema, documents, k) {
          FullyMetMeetsVariant(schema, documents, k);
        }
        if Met(vs, k) {
          var v :| v in vs && v <= k;
          FullyMetGrows(schema, documents, v, k);
        }
      }
    }
    if forall k :: Met(vs, k) <==> FullyMet(schema, documents, k) {
      forall v | v in vs ensures FullyMet(schema, documents, v) {
        assert Met(vs, v);
      }
    }
  }

  /** No keyword is left unread: nothing stands beside a reference, and each
      level has at most one applicator. */
  predicate IsPlain(schema: Schema) {
    match schema
    case NotObject => true
    case Node(ref, required, oneOf, anyOf, allOf) =>
      && (ref.Some? ==> required == {} && oneOf == [] && anyOf == [] && allOf == [])
      && (oneOf != [] ==> anyOf == [] && allOf == []) && (anyOf != [] ==> allOf == [])
      && (forall i :: 0 <= i < |oneOf| ==> IsPlain(oneOf[i]))
      && (forall i :: 0 <= i < |anyOf| ==> IsPlain(anyOf[i]))
      && (forall i :: 0 <= i < |allOf| ==> IsPlain(allOf[i]))
  }

  lemma {:induction false} PlainIsRead(schema: Schema, documents: seq<Document>, held: set<string>, k: Keys)
    requires IsPlain(schema)
    ensures Governed(schema, documents, held, k) <==> Demanded(schema, documents, held, k)
    decreases schema
  {
    match schema
    case NotObject =>
    case Node(Some(_), _, _, _, _) =>
    case Node(None, _, oneOf, anyOf, allOf) =>
      var branches := if oneOf != [] then oneOf else if anyOf != [] then anyOf else allOf;
      forall i | 0 <= i < |branches|
        ensures Governed(branches[i], documents, held, k) <==> Demanded(branches[i], documents, held, k)
      {
        PlainIsRead(branches[i], documents, held, k);
      }
  }

  /** Every reference in the schema is one of `names`. */
  predicate RefersTo(schema: Schema, names: set<string>) {
    schema.Node? ==>
      && (schema.ref.Some? ==> schema.ref.value in names)
      && (forall i :: 0 <= i < |schema.oneOf| ==> RefersTo(schema.oneOf[i], names))
      && (forall i :: 0 <= i < |schema.anyOf| ==> RefersTo(schema.anyOf[i], names))
      && (forall i :: 0 <= i < |schema.allOf| ==> RefersTo(schema.allOf[i], names))
  }

  /** The definitions of `names` refer only to each other and leave no keyword unread. */
  ghost predicate ArePlain(documents: seq<Document>, names: set<string>) {
    forall name :: name in names && Find(documents, name).Some? ==>
      IsPlain(Find(documents, name).value) && RefersTo(Find(documents, name).value, names)
  }

  lemma {:induction false} GovernedByNames(schema: Schema, documents: seq<Document>, held: set<string>, names: set<string>, k: Keys)
    requires RefersTo(schema, names)
    ensures Governed(schema, documents, held, k) <==> Governed(schema, documents, held * names, k)
    decreases schema
  {
    if schema.Node? && schema.ref.None? {
      var branches := if schema.oneOf != [] then schema.oneOf else if schema.anyOf != [] then schema.anyOf else schema.allOf;
      forall i | 0 <= i < |branches|
        ensures Governed(branches[i], documents, held, k) <==> Governed(branches[i], documents, held * names, k)
      {
        GovernedByNames(branches[i], documents, held, names, k);
      }
    }
  }

  /** With every keyword read, in the schema and in the definitions it can reach,
      the variants are a disjunctive normal form, references cyclic or not. */
  lemma {:induction false} PlainNormalForm(schema: Schema, documents: seq<Document>, names: set<string>, k: Keys)
    requires IsPlain(schema) && RefersTo(schema, names) && ArePlain(documents, names)
    ensures Met(Variants(schema, documents, {}), k) <==> FullyMet(schema, documents, k)
  {
    if FullyMet(schema, documents, k) {
      FullyMetMeetsVariant(schema, documents, k);
    }
    VariantsExact(schema, documents, k);
    if held :| Supported(documents, held, {}, k) && Governed(schema, documents, held, k) {
      var both := held * names;
      GovernedByNames(schema, documents, held, names, k);
      PlainIsRead(schema, documents, both, k);
      forall name | name in both
        ensures Find(documents, name).Some? && Demanded(Find(documents, name).value, documents, both, k)
      {
        assert name in held;
        GovernedByNames(Find(documents, name).value, documents, held, names, k);
        PlainIsRead(Find(documents, name).value, documents, both, k);
      }
      assert Upheld(documents, both, k);
    }
  }

  predicate IsReferenceFree(schema: Schema) {
    schema.Node? ==>
      && schema.ref.None?
      && (forall i :: 0 <= i < |schema.oneOf| ==> IsReferenceFree(schema.oneOf[i]))
      && (forall i :: 0 <= i < |schema.anyOf| ==> IsReferenceFree(schema.anyOf[i]))
      && (forall i :: 0 <= i < |schema.allOf| ==> IsReferenceFree(schema.allOf[i]))
  }

  /** Without references and with one applicator at each level, the variants are
      the disjunctive normal form of the `required` constraints. */
  lemma {:induction false} ReferenceFreeNormalForm(schema: Schema, documents: seq<Document>, k: Keys)
    requires IsPlain(schema) && IsReferenceFree(schema)
    ensures Met(Variants(schema, documents, {}), k) <==> Demanded(schema, documents, {}, k)
  {
    VariantsExact(schema, documents, k);
    PlainIsRead(schema, documents, {}, k);
    forall held ensures Governed(schema, documents, held, k) <==> Governed(schema, documents, {}, k) {
      ReferenceFreeIgnoresHeld(schema, documents, held, k);
    }
    assert Supported(documents, {}, {}, k);
  }

  lemma {:induction false} ReferenceFreeIgnoresHeld(schema: Schema, documents: seq<Document>, held: set<string>, k: Keys)
    requires IsReferenceFree(schema)
    ensures Governed(schema, documents, held, k) <==> Governed(schema, documents, {}, k)
    decreases schema
  {
    if schema.Node? {
      var branches := if schema.oneOf != [] then schema.oneOf else if schema.anyOf != [] then schema.anyOf else schema.allOf;
      forall i | 0 <= i < |branches|
        ensures Governed(branches[i], documents, held, k) <==> Governed(branches[i], documents, {}, k)
      {
        ReferenceFreeIgnoresHeld(branches[i], documents, held, k);
      }
    }
  }

  /** Beside a `oneOf`, an `anyOf` is not read: {a} meets a variant of a schema that also asks for b. */
  lemma LaterApplicatorIgnored(a: string, b: string)
    requires a != b
    ensures var s := Node(None, {}, [Requiring({a})], [Requiring({b})], []);
            Met(Variants(s, [], {}), {a}) && !FullyMet(s, [], {a})
  {
    var s := Node(None, {}, [Requiring({a})], [Requiring({b})], []);
    assert Governed(s.oneOf[0], [], {}, {a});
    GovernedMeets(s, [], {}, {}, {a});
    forall held: set<string> ensures !Demanded(s, [], held, {a}) {
      assert b in Requiring({b}).required && b !in {a};
      assert !Demanded(s.anyOf[0], [], held, {a});
    }
  }

  /** Beside a reference, `required` is not read: {} meets a variant of a schema that asks for a. */
  lemma KeywordBesideReferenceIgnored(name: string, documents: seq<Document>, a: string)
    requires Find(documents, name) == Some(Requiring({}))
    ensures Met(Variants(Referring(name, {a}), documents, {}), {}) && !FullyMet(Referring(name, {a}), documents, {})
  {
    var s := Referring(name, {a});
    assert Governed(Requiring({}), documents, {name}, {});
    assert Supported(documents, {name}, {}, {});
    GovernedMeets(s, documents, {name}, {}, {});
    assert a in s.required;
  }
}
