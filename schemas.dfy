/** The parameter schemas of lib/functionSchemas.js, written out as
    validity predicates over the argument records (JSON Schema draft
    2019-09, the draft `validateSchema` names), and `validateSchema` of
    lib/Functions.js.

    A property is `None` when the key is absent and `Some(v)` with the
    decoded JSON value otherwise; a property whose schema is an object is a
    `Slot`: absent, an object whose known properties are modelled, or some
    other value. */
module Schemas {
  import opened Js

  datatype Slot<T> = Absent | Object(fields: T) | NotObject(v: Value)

  /** `{ type: 'string' }`, required. */
  predicate IsString(v: Option<Value>) {
    v.Some? && v.value.Str?
  }

  /** `{ type: 'number' }`, required. */
  predicate IsNumber(v: Option<Value>) {
    v.Some? && v.value.Int?
  }

  /** `{ type: 'string' }`, not required. */
  predicate MaybeString(v: Option<Value>) {
    v.None? || v.value.Str?
  }

  /** The arguments of `definition` and `references`. */
  datatype QueryParams = QueryParams(file: Option<Value>, line: Option<Value>, character: Option<Value>)

  datatype CreateArgs = CreateArgs(fileName: Option<Value>, content: Option<Value>)
  datatype DeleteArgs = DeleteArgs(fileName: Option<Value>)
  datatype RenameArgs = RenameArgs(existingFileName: Option<Value>, newFileName: Option<Value>)
  datatype PositionArgs = PositionArgs(line: Option<Value>, character: Option<Value>)
  datatype RangeArgs = RangeArgs(start: Slot<PositionArgs>, end: Slot<PositionArgs>)
  datatype ModifyArgs = ModifyArgs(fileName: Option<Value>, range: Slot<RangeArgs>, newText: Option<Value>)

  /** One item of `changes`: the four known properties, then the other
      properties of the object in key order. */
  datatype Change = Change(
    create: Slot<CreateArgs>,
    delete: Slot<DeleteArgs>,
    rename: Slot<RenameArgs>,
    modification: Slot<ModifyArgs>,  // the `modify` property
    others: seq<(string, Value)>)

  /** The arguments of `applyWorkspaceEdit`. */
  datatype EditParams = EditParams(changes: Option<seq<Change>>)

  /** The arguments of `runTests`. */
  datatype TestParams = TestParams(fileName: Option<Value>, testName: Option<Value>)

  /** An argument object passed to `validateSchema`, with the shape of the
      function it is meant for. */
  datatype Parameters =
    | Query(query: QueryParams)
    | Edit(edit: EditParams)
    | Tests(tests: TestParams)
    | ReadFileArgs(fileName: Option<Value>)

  predicate ValidQuery(p: QueryParams) {
    IsString(p.file) && IsNumber(p.line) && IsNumber(p.character)
  }

  predicate ValidCreate(c: CreateArgs) {
    IsString(c.fileName) && IsString(c.content)
  }

  predicate ValidDelete(d: DeleteArgs) {
    IsString(d.fileName)
  }

  predicate ValidRename(r: RenameArgs) {
    IsString(r.existingFileName) && IsString(r.newFileName)
  }

  predicate ValidPosition(p: PositionArgs) {
    IsNumber(p.line) && IsNumber(p.character)
  }

  predicate ValidRange(r: RangeArgs) {
    && r.start.Object? && ValidPosition(r.start.fields)
    && r.end.Object? && ValidPosition(r.end.fields)
  }

  predicate ValidModify(m: ModifyArgs) {
    IsString(m.fileName) && m.range.Object? && ValidRange(m.range.fields) && IsString(m.newText)
  }

  /** The item schema: an object whose four properties, when present, are
      objects that are valid. Nothing is required and nothing says only one may be given. */
  predicate ValidChange(c: Change) {
    && (c.create.Absent? || (c.create.Object? && ValidCreate(c.create.fields)))
    && (c.delete.Absent? || (c.delete.Object? && ValidDelete(c.delete.fields)))
    && (c.rename.Absent? || (c.rename.Object? && ValidRename(c.rename.fields)))
    && (c.modification.Absent? || (c.modification.Object? && ValidModify(c.modification.fields)))
  }

  /** `uniqueItems: true`. */
  predicate Distinct<T(==)>(s: seq<T>) {
    forall i, j :: 0 <= i < j < |s| ==> s[i] != s[j]
  }

  /** The `applyWorkspaceEdit` schema. `changes` is not required: the
      `required` list sits inside `properties`, where it declares a property
      named "required" with no constraint. */
  predicate ValidEdit(p: EditParams) {
    p.changes.Some? ==>
      && |p.changes.value| >= 1
      && Distinct(p.changes.value)
      && forall i :: 0 <= i < |p.changes.value| ==> ValidChange(p.changes.value[i])
  }

  predicate ValidTests(p: TestParams) {
    IsString(p.fileName) && MaybeString(p.testName)
  }

  /** Which schema of the array a name finds. */
  datatype Schema = QuerySchema | EditSchema | TestsSchema

  const SchemaNames := ["definition", "references", "applyWorkspaceEdit", "runTests"]

  /** `functionSchemas.find(({ name }) => name === method)`. */
  function FindSchema(name: string): (r: Option<Schema>)
    ensures r.Some? <==> name in SchemaNames
  {
    if name == "definition" || name == "references" then Some(QuerySchema)
    else if name == "applyWorkspaceEdit" then Some(EditSchema)
    else if name == "runTests" then Some(TestsSchema)
    else None
  }

  /** Whether the arguments satisfy the schema. The source only ever pairs
      a schema with arguments of its own shape; other pairs are left
      unvalidated. */
  predicate Conforms(schema: Schema, p: Parameters) {
    match (schema, p)
    case (QuerySchema, Query(q)) => ValidQuery(q)
    case (EditSchema, Edit(e)) => ValidEdit(e)
    case (TestsSchema, Tests(t)) => ValidTests(t)
    case _ => false
  }

  /** The start of the message of the error thrown for invalid arguments. */
  function InvalidParameters(name: string): string {
    "Invalid parameters for " + name + ": "
  }

  /** `validateSchema(method, parameters)`: a name with no schema fails
      reading `.parameters` of `undefined`; arguments that do not conform
      throw an Error naming the function (the validator's list of errors
      that follows in the message is not modelled). */
  function ValidateSchema(name: string, p: Parameters): (r: Result<(), Exception>)
    ensures r.Ok? <==> FindSchema(name).Some? && Conforms(FindSchema(name).value, p)
    ensures FindSchema(name).None? ==> r.Err? && r.error.name == TypeErrorName
    ensures FindSchema(name).Some? && r.Err? ==>
      r.error.name == ErrorName && StartsWith(r.error.message, InvalidParameters(name))
  {
    match FindSchema(name)
    case None => Err(TypeError("Cannot read properties of undefined (reading 'parameters')"))
    case Some(schema) =>
      if Conforms(schema, p) then Ok(())
      else
        Err(Error(InvalidParameters(name)))
  }

  /** `readFile` names a schema the array does not hold, so it fails before
      touching the file system, whatever its arguments. */
  lemma ReadFileHasNoSchema(fileName: Option<Value>)
    ensures ValidateSchema("readFile", ReadFileArgs(fileName)).Err?
    ensures ValidateSchema("readFile", ReadFileArgs(fileName)).error.name == TypeErrorName
  {
  }

  /** `definition` and `references` accept exactly the objects with a
      string `file` and numbers `line` and `character`. */
  lemma QuerySchemaRequiresAll(name: string, q: QueryParams)
    requires name == "definition" || name == "references"
    ensures ValidateSchema(name, Query(q)).Ok? <==>
      q.file.Some? && q.file.value.Str? && q.line.Some? && q.line.value.Int?
      && q.character.Some? && q.character.value.Int?
  {
  }

  /** `changes` may be left out altogether. */
  lemma ChangesNotRequired()
    ensures ValidateSchema("applyWorkspaceEdit", Edit(EditParams(None))).Ok?
  {
  }

  /** An empty list and a list with a repeated item are refused. */
  lemma ChangesNonEmptyAndDistinct(cs: seq<Change>, i: nat, j: nat)
    requires ValidEdit(EditParams(Some(cs)))
    ensures |cs| >= 1
    ensures i < j < |cs| ==> cs[i] != cs[j]
    ensures !ValidEdit(EditParams(Some(cs + cs)))
  {
    var doubled := cs + cs;
    assert doubled[0] == doubled[|cs|];
    assert !Distinct(doubled);
  }

  /** An item with none of the four properties, or with several of them,
      passes the item schema. */
  lemma TagsNotExclusive(others: seq<(string, Value)>, c: CreateArgs, d: DeleteArgs)
    requires ValidCreate(c) && ValidDelete(d)
    ensures ValidChange(Change(Absent, Absent, Absent, Absent, others))
    ensures ValidChange(Change(Object(c), Object(d), Absent, Absent, others))
  {
  }

  /** Each kind's required properties. */
  lemma RequiredPerKind(c: Change)
    requires ValidChange(c)
    ensures c.create.Object? ==> IsString(c.create.fields.fileName) && IsString(c.create.fields.content)
    ensures c.delete.Object? ==> IsString(c.delete.fields.fileName)
    ensures c.rename.Object? ==>
      IsString(c.rename.fields.existingFileName) && IsString(c.rename.fields.newFileName)
    ensures c.modification.Object? ==>
      var m := c.modification.fields;
      && IsString(m.fileName) && IsString(m.newText)
      && m.range.Object? && m.range.fields.start.Object? && m.range.fields.end.Object?
      && IsNumber(m.range.fields.start.fields.line) && IsNumber(m.range.fields.start.fields.character)
      && IsNumber(m.range.fields.end.fields.line) && IsNumber(m.range.fields.end.fields.character)
    ensures !c.create.NotObject? && !c.delete.NotObject? && !c.rename.NotObject? && !c.modification.NotObject?
  {
  }

  /** `runTests` requires `fileName`, and `testName` must be a string when
      given. */
  lemma TestsSchemaRequiresFileName(t: TestParams)
    ensures ValidateSchema("runTests", Tests(t)).Ok? <==>
      t.fileName.Some? && t.fileName.value.Str? && (t.testName.Some? ==> t.testName.value.Str?)
  {
  }
}
