/** Object references declared by a schema, collected from a JSON document by walking both together. */
module ObjectRefCollector {
  import opened Options
  import opened Text
  import opened Words

  datatype Json = Null | Bool(b: bool) | Integer(n: int) | Fraction(text: string) | Str(s: string)
                | Arr(items: seq<Json>) | Obj(members: map<string, Json>)

  /** `fields` are listed in name order, the order they are visited in. */
  datatype FieldType = ObjectRef | List(item: FieldType) | Object(fields: seq<Field>) | Plain

  datatype Field = Field(name: string, fieldType: FieldType)

  datatype DeclaredRef = DeclaredRef(path: string, id: string, objectPath: string, contentType: string, byteSize: u64,
                                     sha256: string)

  // ---------------------------------------------------------------- one reference

  predicate HasText(members: map<string, Json>, name: string) {
    name in members && members[name].Str? && Trim(members[name].s) != []
  }

  /** A complete reference: four non-blank strings and a 64-bit size. */
  predicate IsRef(v: Json) {
    v.Obj? && HasText(v.members, "id") && HasText(v.members, "path") && HasText(v.members, "contentType") &&
    HasText(v.members, "sha256") &&
    "byteSize" in v.members && v.members["byteSize"].Integer? && 0 <= v.members["byteSize"].n <= U64_MAX
  }

  function RefAt(path: string, v: Json): DeclaredRef
    requires IsRef(v)
  {
    DeclaredRef(path, v.members["id"].s, v.members["path"].s, v.members["contentType"].s, v.members["byteSize"].n,
                v.members["sha256"].s)
  }

  /** The object names the reference member by member, none of its texts is blank, and its size is a 64-bit number. */
  ghost predicate Shows(v: Json, r: DeclaredRef) {
    v.Obj? && ShowsText(v.members, "id", r.id) && ShowsText(v.members, "path", r.objectPath) &&
    ShowsText(v.members, "contentType", r.contentType) && ShowsText(v.members, "sha256", r.sha256) &&
    "byteSize" in v.members && v.members["byteSize"] == Integer(r.byteSize)
  }

  ghost predicate ShowsText(members: map<string, Json>, name: string, text: string) {
    name in members && members[name] == Str(text) && exists i :: 0 <= i < |text| && !White(text[i])
  }

  lemma TextIsShown(members: map<string, Json>, name: string)
    ensures HasText(members, name) <==> exists text :: ShowsText(members, name, text)
    ensures forall text :: ShowsText(members, name, text) ==> text == members[name].s
  {
    if name in members && members[name].Str? {
      var s := members[name].s;
      TrimmedAwayIffWhite(s);
      if HasText(members, name) {
        var c :| c in s && !White(c);
        assert ShowsText(members, name, s);
      }
      assert ShowsText(members, name, s) ==> !AllWhite(s);
    }
  }

  /** A reference is complete exactly when the object shows one, and then it is that one. */
  lemma ReferenceIsShown(path: string, v: Json)
    ensures IsRef(v) <==> exists r :: Shows(v, r)
    ensures IsRef(v) ==> forall r :: Shows(v, r) && r.path == path <==> r == RefAt(path, v)
  {
    if v.Obj? {
      TextIsShown(v.members, "id");
      TextIsShown(v.members, "path");
      TextIsShown(v.members, "contentType");
      TextIsShown(v.members, "sha256");
      if IsRef(v) {
        assert Shows(v, RefAt(path, v));
      }
    }
  }

  // ---------------------------------------------------------------- positions, the independent reading

  /** The i-th declared field, or the i-th element. */
  datatype Step = IntoField(i: nat) | IntoItem(i: nat)

  datatype Declared = Declared(fieldType: FieldType, value: Json, path: string)

  /** One step from a declared value to a declared value inside it; nothing is declared inside null. */
  function Next(d: Declared, step: Step): Option<Declared> {
    if d.value.Null? then None
    else if d.fieldType.List? && step.IntoItem? && d.value.Arr? && step.i < |d.value.items| then
      Some(Declared(d.fieldType.item, d.value.items[step.i], d.path + "[" + Decimal(step.i) + "]"))
    else if d.fieldType.Object? && step.IntoField? && d.value.Obj? && step.i < |d.fieldType.fields| then
      var field := d.fieldType.fields[step.i];
      if field.name in d.value.members then
        Some(Declared(field.fieldType, d.value.members[field.name], d.path + "." + field.name))
      else None
    else None
  }

  function At(d: Declared, steps: seq<Step>): Option<Declared>
    decreases |steps|
  {
    if steps == [] then Some(d)
    else
      match Next(d, steps[0])
      case None => None
      case Some(next) => At(next, steps[1..])
  }

  /** The value has the shape its type asks for; null always has. */
  predicate Shaped(d: Declared) {
    d.value.Null? ||
    match d.fieldType
    case ObjectRef => IsRef(d.value)
    case List(_) => d.value.Arr?
    case Object(_) => d.value.Obj?
    case Plain => true
  }

  ghost predicate AllShaped(d: Declared) {
    forall steps :: At(d, steps).Some? ==> Shaped(At(d, steps).value)
  }

  /** A reference stands at some declared position. */
  ghost predicate Declares(d: Declared, r: DeclaredRef) {
    exists steps :: DeclaresAt(d, steps, r)
  }

  predicate DeclaresAt(d: Declared, steps: seq<Step>, r: DeclaredRef) {
    var at := At(d, steps);
    at.Some? && at.value.fieldType.ObjectRef? && IsRef(at.value.value) && r == RefAt(at.value.path, at.value.value)
  }

  /** What is declared at a position is what the object there shows, under that position's path. */
  lemma DeclaredIsShown(d: Declared, steps: seq<Step>, r: DeclaredRef)
    ensures DeclaresAt(d, steps, r) <==>
            At(d, steps).Some? && At(d, steps).value.fieldType == ObjectRef && r.path == At(d, steps).value.path &&
            Shows(At(d, steps).value.value, r)
  {
    if At(d, steps).Some? {
      ReferenceIsShown(At(d, steps).value.path, At(d, steps).value.value);
    }
  }

  /** The path a walk starts from shows in the paths it gives, and nowhere else. */
  lemma {:induction false} StartDoesNotMatter(d: Declared, e: Declared, steps: seq<Step>)
    requires d.fieldType == e.fieldType && d.value == e.value
    ensures At(d, steps).Some? <==> At(e, steps).Some?
    ensures At(d, steps).Some? ==> At(d, steps).value.fieldType == At(e, steps).value.fieldType &&
                                   At(d, steps).value.value == At(e, steps).value.value
    decreases |steps|
  {
    if steps != [] && Next(d, steps[0]).Some? {
      StartDoesNotMatter(Next(d, steps[0]).value, Next(e, steps[0]).value, steps[1..]);
    }
  }

  ghost predicate DeclaresId(d: Declared, id: string) {
    exists r :: Declares(d, r) && r.id == id
  }

  lemma SameIdsFromAnyStart(d: Declared, e: Declared)
    requires d.fieldType == e.fieldType && d.value == e.value
    ensures AllShaped(d) ==> AllShaped(e)
    ensures forall id :: DeclaresId(d, id) ==> DeclaresId(e, id)
  {
    forall steps
      ensures At(d, steps).Some? <==> At(e, steps).Some?
      ensures At(d, steps).Some? && Shaped(At(d, steps).value) ==> Shaped(At(e, steps).value)
    {
      StartDoesNotMatter(d, e, steps);
    }
    forall id | DeclaresId(d, id)
      ensures DeclaresId(e, id)
    {
      var r :| Declares(d, r) && r.id == id;
      var steps :| DeclaresAt(d, steps, r);
      StartDoesNotMatter(d, e, steps);
      assert DeclaresAt(e, steps, r.(path := At(e, steps).value.path));
    }
  }

  // ---------------------------------------------------------------- the walk

  function CollectFromType(d: Declared): Option<seq<DeclaredRef>>
    decreases d.fieldType, 1, 0
  {
    if d.value.Null? then Some([])
    else
      match d.fieldType
      case ObjectRef => if IsRef(d.value) then Some([RefAt(d.path, d.value)]) else None
      case List(_) => if d.value.Arr? then CollectFromItems(d, |d.value.items|) else None
      case Object(fields) => if d.value.Obj? then CollectFromFields(d, |fields|) else None
      case Plain => Some([])
  }

  /** The first `n` elements. */
  function CollectFromItems(d: Declared, n: nat): Option<seq<DeclaredRef>>
    requires d.fieldType.List? && d.value.Arr? && n <= |d.value.items|
    decreases d.fieldType, 0, n
  {
    if n == 0 then Some([])
    else Joined(CollectFromItems(d, n - 1), CollectFromType(Next(d, IntoItem(n - 1)).value))
  }

  /** The first `n` fields; a field the document does not have is passed over. */
  function CollectFromFields(d: Declared, n: nat): Option<seq<DeclaredRef>>
    requires d.fieldType.Object? && d.value.Obj? && n <= |d.fieldType.fields|
    decreases d.fieldType, 0, n
  {
    if n == 0 then Some([])
    else
      var before := CollectFromFields(d, n - 1);
      var next := Next(d, IntoField(n - 1));
      if next.None? then before
      else
        assert next.value.fieldType == d.fieldType.fields[n - 1].fieldType;
        Joined(before, CollectFromType(next.value))
  }

  function Joined(a: Option<seq<DeclaredRef>>, b: Option<seq<DeclaredRef>>): Option<seq<DeclaredRef>> {
    if a.Some? && b.Some? then Some(a.value + b.value) else None
  }

  // ---------------------------------------------------------------- the walk finds what is declared

  ghost predicate ShapedBelow(d: Declared, step: Step) {
    Next(d, step).Some? ==> AllShaped(Next(d, step).value)
  }

  ghost predicate DeclaresBelow(d: Declared, step: Step, r: DeclaredRef) {
    Next(d, step).Some? && Declares(Next(d, step).value, r)
  }

  lemma AtFirstStep(d: Declared, step: Step, steps: seq<Step>)
    ensures At(d, [step] + steps) ==
            if Next(d, step).None? then None else At(Next(d, step).value, steps)
  {
    assert ([step] + steps)[1..] == steps;
  }

  lemma ShapedStepByStep(d: Declared)
    ensures AllShaped(d) <==> Shaped(d) && forall step :: ShapedBelow(d, step)
  {
    if AllShaped(d) {
      assert At(d, []) == Some(d);
      forall step
        ensures ShapedBelow(d, step)
      {
        forall steps | Next(d, step).Some? && At(Next(d, step).value, steps).Some?
          ensures Shaped(At(Next(d, step).value, steps).value)
        {
          AtFirstStep(d, step, steps);
        }
      }
    }
    if Shaped(d) && forall step :: ShapedBelow(d, step) {
      forall steps | At(d, steps).Some?
        ensures Shaped(At(d, steps).value)
      {
        if steps != [] {
          assert ShapedBelow(d, steps[0]);
        }
      }
    }
  }

  lemma DeclaredStepByStep(d: Declared, r: DeclaredRef)
    ensures Declares(d, r) <==> DeclaresAt(d, [], r) || exists step :: DeclaresBelow(d, step, r)
  {
    if steps :| DeclaresAt(d, steps, r) {
      if steps != [] {
        assert DeclaresAt(Next(d, steps[0]).value, steps[1..], r);
        assert DeclaresBelow(d, steps[0], r);
      }
    }
    if step :| DeclaresBelow(d, step, r) {
      var steps :| DeclaresAt(Next(d, step).value, steps, r);
      AtFirstStep(d, step, steps);
      assert DeclaresAt(d, [step] + steps, r);
    }
  }

  /**
   The walk succeeds exactly when every declared position is well shaped, and lists exactly the references declared.
   */
  lemma {:induction false} WalkFindsWhatIsDeclared(d: Declared)
    ensures CollectFromType(d).Some? <==> AllShaped(d)
    ensures CollectFromType(d).Some? ==>
              forall r :: r in CollectFromType(d).value <==> Declares(d, r)
    decreases d.fieldType, 1, 0
  {
    ShapedStepByStep(d);
    forall r
      ensures Declares(d, r) <==> DeclaresAt(d, [], r) || exists step :: DeclaresBelow(d, step, r)
    {
      DeclaredStepByStep(d, r);
    }
    if d.fieldType.List? && d.value.Arr? {
      ItemsFindWhatIsDeclared(d, |d.value.items|);
      EveryStepIsAnItem(d);
    } else if d.fieldType.Object? && d.value.Obj? {
      FieldsFindWhatIsDeclared(d, |d.fieldType.fields|);
      EveryStepIsAField(d);
    } else {
      forall step
        ensures Next(d, step).None?
      {
      }
    }
  }

  ghost predicate ShapedUpTo(d: Declared, n: nat, fields: bool) {
    forall i :: 0 <= i < n ==> ShapedBelow(d, Nth(i, fields))
  }

  ghost predicate DeclaresUpTo(d: Declared, n: nat, fields: bool, r: DeclaredRef) {
    exists i :: 0 <= i < n && DeclaresBelow(d, Nth(i, fields), r)
  }

  function Nth(i: nat, fields: bool): Step {
    if fields then IntoField(i) else IntoItem(i)
  }

  lemma EveryStepIsAnItem(d: Declared)
    requires d.fieldType.List? && d.value.Arr?
    ensures (forall step :: ShapedBelow(d, step)) <==> ShapedUpTo(d, |d.value.items|, false)
    ensures forall r :: (exists step :: DeclaresBelow(d, step, r)) <==>
                        DeclaresUpTo(d, |d.value.items|, false, r)
  {
    StepsAreNumbered(d, |d.value.items|, false);
  }

  lemma EveryStepIsAField(d: Declared)
    requires d.fieldType.Object? && d.value.Obj?
    ensures (forall step :: ShapedBelow(d, step)) <==> ShapedUpTo(d, |d.fieldType.fields|, true)
    ensures forall r :: (exists step :: DeclaresBelow(d, step, r)) <==>
                        DeclaresUpTo(d, |d.fieldType.fields|, true, r)
  {
    StepsAreNumbered(d, |d.fieldType.fields|, true);
  }

  lemma StepsAreNumbered(d: Declared, n: nat, fields: bool)
    requires forall step :: Next(d, step).Some? ==> step.i < n && step == Nth(step.i, fields)
    ensures (forall step :: ShapedBelow(d, step)) <==> ShapedUpTo(d, n, fields)
    ensures forall r :: (exists step :: DeclaresBelow(d, step, r)) <==> DeclaresUpTo(d, n, fields, r)
  {
    if ShapedUpTo(d, n, fields) {
      forall step
        ensures ShapedBelow(d, step)
      {
        if Next(d, step).Some? {
          assert ShapedBelow(d, Nth(step.i, fields));
        }
      }
    }
    forall r
      ensures (exists step :: DeclaresBelow(d, step, r)) <==> DeclaresUpTo(d, n, fields, r)
    {
      if step :| DeclaresBelow(d, step, r) {
        assert DeclaresBelow(d, Nth(step.i, fields), r);
      }
    }
  }

  lemma {:induction false} ItemsFindWhatIsDeclared(d: Declared, n: nat)
    requires d.fieldType.List? && d.value.Arr? && n <= |d.value.items|
    ensures CollectFromItems(d, n).Some? <==> ShapedUpTo(d, n, false)
    ensures CollectFromItems(d, n).Some? ==>
              forall r :: r in CollectFromItems(d, n).value <==> DeclaresUpTo(d, n, false, r)
    decreases d.fieldType, 0, n
  {
    if n > 0 {
      ItemsFindWhatIsDeclared(d, n - 1);
      WalkFindsWhatIsDeclared(Next(d, IntoItem(n - 1)).value);
      OneMoreStep(d, n, false);
    }
  }

  lemma {:induction false} FieldsFindWhatIsDeclared(d: Declared, n: nat)
    requires d.fieldType.Object? && d.value.Obj? && n <= |d.fieldType.fields|
    ensures CollectFromFields(d, n).Some? <==> ShapedUpTo(d, n, true)
    ensures CollectFromFields(d, n).Some? ==>
              forall r :: r in CollectFromFields(d, n).value <==> DeclaresUpTo(d, n, true, r)
    decreases d.fieldType, 0, n
  {
    if n > 0 {
      FieldsFindWhatIsDeclared(d, n - 1);
      var next := Next(d, IntoField(n - 1));
      if next.Some? {
        assert next.value.fieldType == d.fieldType.fields[n - 1].fieldType;
        WalkFindsWhatIsDeclared(next.value);
      }
      OneMoreStep(d, n, true);
    }
  }

  lemma OneMoreStep(d: Declared, n: nat, fields: bool)
    requires n > 0
    ensures ShapedUpTo(d, n, fields) <==>
              ShapedUpTo(d, n - 1, fields) && ShapedBelow(d, Nth(n - 1, fields))
    ensures forall r :: DeclaresUpTo(d, n, fields, r) <==>
                        DeclaresUpTo(d, n - 1, fields, r) || DeclaresBelow(d, Nth(n - 1, fields), r)
  {
    forall r
      ensures DeclaresUpTo(d, n, fields, r) <==>
                DeclaresUpTo(d, n - 1, fields, r) || DeclaresBelow(d, Nth(n - 1, fields), r)
    {
      if i :| 0 <= i < n && DeclaresBelow(d, Nth(i, fields), r) {
        assert i == n - 1 || DeclaresUpTo(d, n - 1, fields, r);
      }
    }
  }

  // ---------------------------------------------------------------- the collectors

  /** Pushes what it finds; on a value of the wrong shape it stops with whatever was pushed so far. */
  method CollectType(d: Declared, pushed: seq<DeclaredRef>) returns (ok: bool, refs: seq<DeclaredRef>)
    ensures ok <==> CollectFromType(d).Some?
    ensures ok ==> refs == pushed + CollectFromType(d).value
    decreases d.fieldType, 1
  {
    ok, refs := true, pushed;
    if d.value.Null? {
      return;
    }
    match d.fieldType {
      case ObjectRef =>
        if !IsRef(d.value) {
          return false, refs;
        }
        refs := refs + [RefAt(d.path, d.value)];
      case List(item) =>
        if !d.value.Arr? {
          return false, refs;
        }
        ok, refs := CollectItems(d, refs);
      case Object(fields) =>
        if !d.value.Obj? {
          return false, refs;
        }
        ok, refs := CollectFields(d, refs);
      case Plain =>
    }
  }

  method CollectItems(d: Declared, pushed: seq<DeclaredRef>) returns (ok: bool, refs: seq<DeclaredRef>)
    requires d.fieldType.List? && d.value.Arr?
    ensures ok <==> CollectFromItems(d, |d.value.items|).Some?
    ensures ok ==> refs == pushed + CollectFromItems(d, |d.value.items|).value
    decreases d.fieldType, 0
  {
    ok, refs := true, pushed;
    for i := 0 to |d.value.items|
      invariant ok && CollectFromItems(d, i).Some? && refs == pushed + CollectFromItems(d, i).value
    {
      ok, refs := CollectType(Declared(d.fieldType.item, d.value.items[i], d.path + "[" + Decimal(i) + "]"), refs);
      if !ok {
        ItemsFail(d, i + 1);
        return;
      }
    }
  }

  method CollectFields(d: Declared, pushed: seq<DeclaredRef>) returns (ok: bool, refs: seq<DeclaredRef>)
    requires d.fieldType.Object? && d.value.Obj?
    ensures ok <==> CollectFromFields(d, |d.fieldType.fields|).Some?
    ensures ok ==> refs == pushed + CollectFromFields(d, |d.fieldType.fields|).value
    decreases d.fieldType, 0
  {
    ok, refs := true, pushed;
    for i := 0 to |d.fieldType.fields|
      invariant ok && CollectFromFields(d, i).Some? && refs == pushed + CollectFromFields(d, i).value
    {
      var field := d.fieldType.fields[i];
      if field.name !in d.value.members {
        continue;
      }
      ok, refs := CollectType(Declared(field.fieldType, d.value.members[field.name], d.path + "." + field.name), refs);
      if !ok {
        FieldsFail(d, i + 1);
        return;
      }
    }
  }

  lemma {:induction false} ItemsFail(d: Declared, n: nat)
    requires d.fieldType.List? && d.value.Arr? && n <= |d.value.items| && CollectFromItems(d, n).None?
    ensures CollectFromItems(d, |d.value.items|).None?
    decreases |d.value.items| - n
  {
    if n < |d.value.items| {
      ItemsFail(d, n + 1);
    }
  }

  lemma {:induction false} FieldsFail(d: Declared, n: nat)
    requires d.fieldType.Object? && d.value.Obj? && n <= |d.fieldType.fields| && CollectFromFields(d, n).None?
    ensures CollectFromFields(d, |d.fieldType.fields|).None?
    decreases |d.fieldType.fields| - n
  {
    if n < |d.fieldType.fields| {
      FieldsFail(d, n + 1);
    }
  }

  /** At the top the document itself must be an object; null is not accepted there. */
  method CollectDeclaredObjectRefs(d: Declared) returns (found: Option<seq<DeclaredRef>>)
    requires d.fieldType.Object?
    ensures found.Some? <==> d.value.Obj? && AllShaped(d)
    ensures found.Some? ==> forall r :: r in found.value <==> Declares(d, r)
  {
    WalkFindsWhatIsDeclared(d);
    if !d.value.Obj? {
      return None;
    }
    var ok, refs := CollectFields(d, []);
    return if ok then Some(refs) else None;
  }
}
