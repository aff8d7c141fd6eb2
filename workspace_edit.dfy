/** `#toLspChanges`, `pick` and the call sequence of `applyWorkspaceEdit`
    in lib/Functions.js.

    The assistant's `changes` list becomes the `documentChanges` array of a
    WorkspaceEdit of the Language Server Protocol 3.17 (CreateFile,
    RenameFile, DeleteFile and TextDocumentEdit entries). Whether a file
    exists is the parameter `fileExists`, asked about the joined path. */
module WorkspaceEdit {
  import opened Js
  import opened Schemas

  /** A property value of an emitted text edit: a JSON scalar, or a range
      object as the assistant sent it. */
  datatype Property = Scalar(v: Value) | RangeValue(range: RangeArgs)

  /** An emitted text edit object: what `pick` returns, a key for every
      picked name, `None` standing for `undefined`. */
  type EditObject = map<string, Option<Property>>

  datatype DocumentChange =
    | CreateFile(uri: string)
    | RenameFile(oldUri: string, newUri: string)
    | DeleteFile(uri: string)
    | TextDocumentEdit(uri: string, edits: seq<EditObject>)

  /** `file://` followed by the file's path joined to the project root:
      the root, a slash, then the name without one leading "./" (a `..`
      segment is kept as it is, see `PathJoin`). */
  function FileUri(cwd: string, name: string): (r: string)
    ensures StartsWith(r, "file://" + cwd + "/")
    ensures r[|"file://" + cwd + "/"|..] == if StartsWith(name, "./") then name[2..] else name
  {
    var p := PathJoin(cwd, name);
    var rest := if StartsWith(name, "./") then name[2..] else name;
    assert "file://" + p == ("file://" + cwd + "/") + rest;
    "file://" + p
  }

  /** `pick(object, ...keys)`: a new object with exactly the given keys,
      each holding the object's value or `undefined`. */
  function Pick<V>(source: map<string, V>, keys: seq<string>): (r: map<string, Option<V>>)
    ensures r.Keys == set k | k in keys
    ensures forall k :: k in r ==> r[k] == if k in source then Some(source[k]) else None
    decreases |keys|
  {
    if |keys| == 0 then map[]
    else
      var key := keys[|keys| - 1];
      var result := Pick(source, keys[..|keys| - 1]);
      assert forall k :: k in keys <==> k in keys[..|keys| - 1] || k == key;
      result[key := if key in source then Some(source[key]) else None]
  }

  /** The properties of a `modify` object, as far as they are modelled. */
  function ModifyProperties(m: ModifyArgs): map<string, Property> {
    var withName := if m.fileName.Some? then map["fileName" := Scalar(m.fileName.value)] else map[];
    var withText := if m.newText.Some? then withName["newText" := Scalar(m.newText.value)] else withName;
    match m.range
    case Absent => withText
    case Object(r) => withText["range" := RangeValue(r)]
    case NotObject(v) => withText["range" := Scalar(v)]
  }

  /** The `modify` edit carries `newText` and `range` and nothing else;
      in particular not `fileName`. */
  lemma ModifyEditCarriesNewTextAndRange(m: ModifyArgs)
    requires ValidModify(m)
    ensures var e := Pick(ModifyProperties(m), ["newText", "range"]);
      && e.Keys == {"newText", "range"}
      && e["newText"] == Some(Scalar(m.newText.value))
      && e["range"] == Some(RangeValue(m.range.fields))
  {
    var e := Pick(ModifyProperties(m), ["newText", "range"]);
    assert "newText" in e && "range" in e;
  }

  /** The empty range at the start of a file, where `create` inserts. */
  const StartOfFile := RangeArgs(
    Object(PositionArgs(Some(Int(0)), Some(Int(0)))),
    Object(PositionArgs(Some(Int(0)), Some(Int(0)))))

  function InsertAtStart(content: Value): EditObject {
    map["newText" := Some(Scalar(content)), "range" := Some(RangeValue(StartOfFile))]
  }

  /** Which branch of the if/else chain a change takes. */
  datatype Kind = CreateKind | DeleteKind | RenameKind | ModifyKind | UnknownKind

  function KindOf(c: Change): Kind {
    if c.create.Object? then CreateKind
    else if c.delete.Object? then DeleteKind
    else if c.rename.Object? then RenameKind
    else if c.modification.Object? then ModifyKind
    else UnknownKind
  }

  /** The text of a string property that the item schema requires. */
  function Text(v: Option<Value>): string
    requires IsString(v)
  {
    v.value.s
  }

  /** The file name that `#validateFile` is called with, for the kinds that
      call it. */
  function CheckedName(c: Change): Option<string>
    requires ValidChange(c)
  {
    match KindOf(c)
    case DeleteKind => Some(Text(c.delete.fields.fileName))
    case RenameKind => Some(Text(c.rename.fields.existingFileName))
    case ModifyKind => Some(Text(c.modification.fields.fileName))
    case _ => None
  }

  function MissingFile(file: string): Exception {
    AssertionError("File \"" + file + "\" does not exist.")
  }

  function UnknownChangeType(c: Change): Exception {
    var key := if |c.others| > 0 then c.others[0].0 else "undefined";
    Error("Unknown change type: " + key + ". Expected one of: create, delete, rename, modify.")
  }

  /** What one step of the `reduce` pushes, or the error it throws. */
  function TranslateOne(cwd: string, fileExists: string -> bool, c: Change): (r: Result<seq<DocumentChange>, Exception>)
    requires ValidChange(c)
    // it throws exactly when the checked file is missing or the kind is unknown
    ensures r.Err? <==>
      || (CheckedName(c).Some? && !fileExists(PathJoin(cwd, CheckedName(c).value)))
      || KindOf(c) == UnknownKind
    ensures r.Err? && CheckedName(c).Some? ==> r.error == MissingFile(CheckedName(c).value)
  {
    match CheckedName(c)
    case Some(file) =>
      if !fileExists(PathJoin(cwd, file)) then Err(MissingFile(file))
      else if KindOf(c) == DeleteKind then Ok([DeleteFile(FileUri(cwd, file))])
      else if KindOf(c) == RenameKind then
        Ok([RenameFile(FileUri(cwd, file), FileUri(cwd, Text(c.rename.fields.newFileName)))])
      else
        Ok([TextDocumentEdit(FileUri(cwd, file), [Pick(ModifyProperties(c.modification.fields), ["newText", "range"])])])
    case None =>
      if KindOf(c) == CreateKind then
        var uri := FileUri(cwd, Text(c.create.fields.fileName));
        Ok([CreateFile(uri), TextDocumentEdit(uri, [InsertAtStart(c.create.fields.content.value)])])
      else Err(UnknownChangeType(c))
  }

  predicate AllValid(cs: seq<Change>) {
    forall i :: 0 <= i < |cs| ==> ValidChange(cs[i])
  }

  /** `changes.reduce(...)`: the changes in order; the first throw ends it. */
  function Translate(cwd: string, fileExists: string -> bool, cs: seq<Change>): (r: Result<seq<DocumentChange>, Exception>)
    requires AllValid(cs)
    // what is thrown is the error of one of the changes
    ensures r.Err? ==> exists i :: 0 <= i < |cs| && TranslateOne(cwd, fileExists, cs[i]) == Err(r.error)
    decreases |cs|
  {
    if |cs| == 0 then Ok([])
    else
      match Translate(cwd, fileExists, cs[..|cs| - 1])
      case Err(e) =>
        var i :| 0 <= i < |cs| - 1 && TranslateOne(cwd, fileExists, cs[..|cs| - 1][i]) == Err(e);
        assert cs[..|cs| - 1][i] == cs[i];
        Err(e)
      case Ok(acc) =>
        match TranslateOne(cwd, fileExists, cs[|cs| - 1])
        case Err(e) => Err(e)
        case Ok(pushed) => Ok(acc + pushed)
  }

  /** `#toLspChanges({ changes })`: the accumulator array and its pushes. */
  method ToLspChanges(cwd: string, fileExists: string -> bool, changes: seq<Change>)
    returns (r: Result<seq<DocumentChange>, Exception>)
    requires AllValid(changes)
    ensures r == Translate(cwd, fileExists, changes)
  {
    var result: seq<DocumentChange> := [];
    var i := 0;
    while i < |changes|
      invariant 0 <= i <= |changes|
      invariant Translate(cwd, fileExists, changes[..i]) == Ok(result)
    {
      var c := changes[i];
      TranslateOneShape(cwd, fileExists, c);
      var kind := KindOf(c);
      var pushed;
      if kind == CreateKind {
        var uri := FileUri(cwd, Text(c.create.fields.fileName));
        pushed := [CreateFile(uri), TextDocumentEdit(uri, [InsertAtStart(c.create.fields.content.value)])];
      } else if kind == DeleteKind {
        var file := Text(c.delete.fields.fileName);
        if !fileExists(PathJoin(cwd, file)) {
          StepFails(cwd, fileExists, changes, i, result);
          return Err(MissingFile(file));
        }
        pushed := [DeleteFile(FileUri(cwd, file))];
      } else if kind == RenameKind {
        var file := Text(c.rename.fields.existingFileName);
        if !fileExists(PathJoin(cwd, file)) {
          StepFails(cwd, fileExists, changes, i, result);
          return Err(MissingFile(file));
        }
        pushed := [RenameFile(FileUri(cwd, file), FileUri(cwd, Text(c.rename.fields.newFileName)))];
      } else if kind == ModifyKind {
        var file := Text(c.modification.fields.fileName);
        if !fileExists(PathJoin(cwd, file)) {
          StepFails(cwd, fileExists, changes, i, result);
          return Err(MissingFile(file));
        }
        pushed := [TextDocumentEdit(FileUri(cwd, file), [Pick(ModifyProperties(c.modification.fields), ["newText", "range"])])];
      } else {
        StepFails(cwd, fileExists, changes, i, result);
        return Err(UnknownChangeType(c));
      }
      StepPushes(cwd, fileExists, changes, i, result, pushed);
      result := result + pushed;
      i := i + 1;
    }
    assert changes[..i] == changes;
    r := Ok(result);
  }

  /** What a change of each kind emits, and when it throws. The first
      present property among create, delete, rename and modify decides;
      `fileExists` is asked only about the deleted file, the file a rename
      starts from, and the modified file. */
  lemma TranslateOneShape(cwd: string, fileExists: string -> bool, c: Change)
    requires ValidChange(c)
    ensures c.create.Object? ==>
      var uri := FileUri(cwd, Text(c.create.fields.fileName));
      TranslateOne(cwd, fileExists, c) ==
        Ok([CreateFile(uri), TextDocumentEdit(uri, [InsertAtStart(c.create.fields.content.value)])])
    ensures !c.create.Object? && c.delete.Object? ==>
      var file := Text(c.delete.fields.fileName);
      TranslateOne(cwd, fileExists, c) ==
        if fileExists(PathJoin(cwd, file)) then Ok([DeleteFile(FileUri(cwd, file))]) else Err(MissingFile(file))
    ensures !c.create.Object? && !c.delete.Object? && c.rename.Object? ==>
      var file := Text(c.rename.fields.existingFileName);
      TranslateOne(cwd, fileExists, c) ==
        if fileExists(PathJoin(cwd, file))
        then Ok([RenameFile(FileUri(cwd, file), FileUri(cwd, Text(c.rename.fields.newFileName)))])
        else Err(MissingFile(file))
    ensures !c.create.Object? && !c.delete.Object? && !c.rename.Object? && c.modification.Object? ==>
      var file := Text(c.modification.fields.fileName);
      TranslateOne(cwd, fileExists, c) ==
        if fileExists(PathJoin(cwd, file))
        then Ok([TextDocumentEdit(FileUri(cwd, file), [Pick(ModifyProperties(c.modification.fields), ["newText", "range"])])])
        else Err(MissingFile(file))
    ensures KindOf(c) == UnknownKind ==> TranslateOne(cwd, fileExists, c) == Err(UnknownChangeType(c))
  {
    if c.create.Object? {
      assert KindOf(c) == CreateKind;
    } else if c.delete.Object? {
      assert KindOf(c) == DeleteKind;
    } else if c.rename.Object? {
      assert KindOf(c) == RenameKind;
    } else if c.modification.Object? {
      assert KindOf(c) == ModifyKind;
    }
  }

  /** A create emits two entries, every other kind one. */
  function Width(c: Change): nat {
    if KindOf(c) == CreateKind then 2 else 1
  }

  function TotalWidth(cs: seq<Change>): nat
    decreases |cs|
  {
    if |cs| == 0 then 0 else TotalWidth(cs[..|cs| - 1]) + Width(cs[|cs| - 1])
  }

  lemma TranslateOneWidth(cwd: string, fileExists: string -> bool, c: Change)
    requires ValidChange(c) && TranslateOne(cwd, fileExists, c).Ok?
    ensures |TranslateOne(cwd, fileExists, c).value| == Width(c)
  {
  }

  /** Translating a list in two parts: the outputs are concatenated in
      order, and an error in the first part wins. */
  lemma {:induction false} TranslateAppend(cwd: string, fileExists: string -> bool, a: seq<Change>, b: seq<Change>)
    requires AllValid(a) && AllValid(b)
    ensures AllValid(a + b)
    ensures Translate(cwd, fileExists, a).Err? ==> Translate(cwd, fileExists, a + b) == Translate(cwd, fileExists, a)
    ensures Translate(cwd, fileExists, a).Ok? && Translate(cwd, fileExists, b).Err? ==>
      Translate(cwd, fileExists, a + b) == Translate(cwd, fileExists, b)
    ensures Translate(cwd, fileExists, a).Ok? && Translate(cwd, fileExists, b).Ok? ==>
      Translate(cwd, fileExists, a + b) == Ok(Translate(cwd, fileExists, a).value + Translate(cwd, fileExists, b).value)
  {
    AllValidAppend(a, b);
    TranslateCombine(cwd, fileExists, a, b);
  }

  /** Running two translations one after the other: the first error wins,
      otherwise the outputs are concatenated. */
  function Then(x: Result<seq<DocumentChange>, Exception>, y: Result<seq<DocumentChange>, Exception>): Result<seq<DocumentChange>, Exception> {
    if x.Err? then x else if y.Err? then Err(y.error) else Ok(x.value + y.value)
  }

  lemma ThenAssociative(x: Result<seq<DocumentChange>, Exception>, y: Result<seq<DocumentChange>, Exception>, z: Result<seq<DocumentChange>, Exception>)
    ensures Then(Then(x, y), z) == Then(x, Then(y, z))
  {
    if x.Ok? && y.Ok? && z.Ok? {
      assert x.value + y.value + z.value == x.value + (y.value + z.value);
    }
  }

  lemma {:induction false} TranslateCombine(cwd: string, fileExists: string -> bool, a: seq<Change>, b: seq<Change>)
    requires AllValid(a) && AllValid(b)
    ensures AllValid(a + b)
    ensures Translate(cwd, fileExists, a + b) == Then(Translate(cwd, fileExists, a), Translate(cwd, fileExists, b))
    decreases |b|
  {
    AllValidAppend(a, b);
    var ta := Translate(cwd, fileExists, a);
    if |b| == 0 {
      assert a + b == a;
      if ta.Ok? {
        assert ta.value + [] == ta.value;
      }
    } else {
      var b' := b[..|b| - 1];
      var last := b[|b| - 1];
      assert AllValid(b');
      AllValidAppend(a, b');
      TranslateCombine(cwd, fileExists, a, b');
      assert (a + b)[..|a + b| - 1] == a + b';
      assert (a + b)[|a + b| - 1] == last;
      var tb', tl := Translate(cwd, fileExists, b'), TranslateOne(cwd, fileExists, last);
      assert Translate(cwd, fileExists, a + b) == Then(Translate(cwd, fileExists, a + b'), tl);
      assert Translate(cwd, fileExists, b) == Then(tb', tl);
      ThenAssociative(ta, tb', tl);
    }
  }

  lemma AllValidAppend(a: seq<Change>, b: seq<Change>)
    requires AllValid(a) && AllValid(b)
    ensures AllValid(a + b)
  {
    forall i | 0 <= i < |a + b| ensures ValidChange((a + b)[i]) {
      if i >= |a| { assert (a + b)[i] == b[i - |a|]; }
    }
  }

  /** One more step of the `reduce`. */
  lemma TranslateStep(cwd: string, fileExists: string -> bool, cs: seq<Change>, i: nat)
    requires AllValid(cs) && i < |cs|
    ensures AllValid(cs[..i]) && AllValid(cs[..i + 1])
    ensures Translate(cwd, fileExists, cs[..i]).Ok? ==>
      Translate(cwd, fileExists, cs[..i + 1]) ==
        match TranslateOne(cwd, fileExists, cs[i])
        case Err(e) => Err(e)
        case Ok(pushed) => Ok(Translate(cwd, fileExists, cs[..i]).value + pushed)
  {
    assert cs[..i + 1][..i] == cs[..i];
  }

  /** The loop's step when change i translates: its entries are pushed. */
  lemma StepPushes(cwd: string, fileExists: string -> bool, cs: seq<Change>, i: nat,
                   result: seq<DocumentChange>, pushed: seq<DocumentChange>)
    requires AllValid(cs) && i < |cs|
    requires Translate(cwd, fileExists, cs[..i]) == Ok(result)
    requires TranslateOne(cwd, fileExists, cs[i]) == Ok(pushed)
    ensures Translate(cwd, fileExists, cs[..i + 1]) == Ok(result + pushed)
  {
    TranslateStep(cwd, fileExists, cs, i);
  }

  /** The loop's step when change i throws: the whole list throws that. */
  lemma StepFails(cwd: string, fileExists: string -> bool, cs: seq<Change>, i: nat, result: seq<DocumentChange>)
    requires AllValid(cs) && i < |cs|
    requires Translate(cwd, fileExists, cs[..i]) == Ok(result)
    requires TranslateOne(cwd, fileExists, cs[i]).Err?
    ensures Translate(cwd, fileExists, cs) == Err(TranslateOne(cwd, fileExists, cs[i]).error)
  {
    TranslateStep(cwd, fileExists, cs, i);
    FailurePropagates(cwd, fileExists, cs, i + 1);
  }

  /** Once a prefix of the changes fails, so does the whole list, with the
      same error. */
  lemma FailurePropagates(cwd: string, fileExists: string -> bool, cs: seq<Change>, n: nat)
    requires AllValid(cs) && n <= |cs|
    requires AllValid(cs[..n]) && Translate(cwd, fileExists, cs[..n]).Err?
    ensures Translate(cwd, fileExists, cs) == Translate(cwd, fileExists, cs[..n])
  {
    assert AllValid(cs[n..]);
    assert cs == cs[..n] + cs[n..];
    TranslateAppend(cwd, fileExists, cs[..n], cs[n..]);
  }

  /** The output has one entry per delete, rename and modify and two per
      create, in the order of the changes. */
  lemma {:induction false} TranslateCount(cwd: string, fileExists: string -> bool, cs: seq<Change>)
    requires AllValid(cs) && Translate(cwd, fileExists, cs).Ok?
    ensures |Translate(cwd, fileExists, cs).value| == TotalWidth(cs)
    decreases |cs|
  {
    if |cs| > 0 {
      assert AllValid(cs[..|cs| - 1]);
      TranslateCount(cwd, fileExists, cs[..|cs| - 1]);
      TranslateOneWidth(cwd, fileExists, cs[|cs| - 1]);
    }
  }

  /** The translation succeeds exactly when every change does. */
  lemma TranslateOkIffAllOk(cwd: string, fileExists: string -> bool, cs: seq<Change>)
    requires AllValid(cs)
    ensures Translate(cwd, fileExists, cs).Ok? <==> forall i :: 0 <= i < |cs| ==> TranslateOne(cwd, fileExists, cs[i]).Ok?
  {
    if Translate(cwd, fileExists, cs).Ok? {
      OkMeansEachOk(cwd, fileExists, cs);
    } else if forall i :: 0 <= i < |cs| ==> TranslateOne(cwd, fileExists, cs[i]).Ok? {
      EachOkMeansOk(cwd, fileExists, cs);
    }
  }

  lemma {:induction false} OkMeansEachOk(cwd: string, fileExists: string -> bool, cs: seq<Change>)
    requires AllValid(cs) && Translate(cwd, fileExists, cs).Ok?
    ensures forall i :: 0 <= i < |cs| ==> TranslateOne(cwd, fileExists, cs[i]).Ok?
    decreases |cs|
  {
    if |cs| > 0 {
      var init := cs[..|cs| - 1];
      assert AllValid(init);
      assert Translate(cwd, fileExists, init).Ok?;
      OkMeansEachOk(cwd, fileExists, init);
      forall i | 0 <= i < |cs| ensures TranslateOne(cwd, fileExists, cs[i]).Ok? {
        if i < |init| { assert init[i] == cs[i]; }
      }
    }
  }

  lemma {:induction false} EachOkMeansOk(cwd: string, fileExists: string -> bool, cs: seq<Change>)
    requires AllValid(cs)
    requires forall i :: 0 <= i < |cs| ==> TranslateOne(cwd, fileExists, cs[i]).Ok?
    ensures Translate(cwd, fileExists, cs).Ok?
    decreases |cs|
  {
    if |cs| > 0 {
      var init := cs[..|cs| - 1];
      assert AllValid(init);
      assert forall i :: 0 <= i < |init| ==> init[i] == cs[i];
      EachOkMeansOk(cwd, fileExists, init);
      assert TranslateOne(cwd, fileExists, cs[|cs| - 1]).Ok?;
    }
  }

  /** The error thrown is that of the first change that fails. */
  lemma FirstFailureWins(cwd: string, fileExists: string -> bool, cs: seq<Change>, i: nat)
    requires AllValid(cs) && i < |cs|
    requires forall j :: 0 <= j < i ==> TranslateOne(cwd, fileExists, cs[j]).Ok?
    requires TranslateOne(cwd, fileExists, cs[i]).Err?
    ensures Translate(cwd, fileExists, cs) == Err(TranslateOne(cwd, fileExists, cs[i]).error)
  {
    PrefixOk(cwd, fileExists, cs, i);
    TranslateStep(cwd, fileExists, cs, i);
    FailurePropagates(cwd, fileExists, cs, i + 1);
  }

  lemma {:induction false} PrefixOk(cwd: string, fileExists: string -> bool, cs: seq<Change>, i: nat)
    requires AllValid(cs) && i <= |cs|
    requires forall j :: 0 <= j < i ==> TranslateOne(cwd, fileExists, cs[j]).Ok?
    ensures AllValid(cs[..i]) && Translate(cwd, fileExists, cs[..i]).Ok?
    decreases i
  {
    if i > 0 {
      PrefixOk(cwd, fileExists, cs, i - 1);
      TranslateStep(cwd, fileExists, cs, i - 1);
      assert TranslateOne(cwd, fileExists, cs[i - 1]).Ok?;
    }
  }

  /** Two file systems that agree on the files `#validateFile` asks about
      give the same translation: a created file and the target of a rename
      are never checked. */
  lemma {:induction false} ExistsAskedOnlyForCheckedNames(cwd: string, e1: string -> bool, e2: string -> bool, cs: seq<Change>)
    requires AllValid(cs)
    requires forall i :: 0 <= i < |cs| && CheckedName(cs[i]).Some? ==>
      e1(PathJoin(cwd, CheckedName(cs[i]).value)) == e2(PathJoin(cwd, CheckedName(cs[i]).value))
    ensures Translate(cwd, e1, cs) == Translate(cwd, e2, cs)
    decreases |cs|
  {
    if |cs| > 0 {
      var init := cs[..|cs| - 1];
      assert AllValid(init);
      assert forall i :: 0 <= i < |init| ==> init[i] == cs[i];
      ExistsAskedOnlyForCheckedNames(cwd, e1, e2, init);
      assert TranslateOne(cwd, e1, cs[|cs| - 1]) == TranslateOne(cwd, e2, cs[|cs| - 1]);
    }
  }

  /** Every URI of an emitted entry begins, as text, with `file://`, the
      project root and a slash. This is a fact about the string only: a
      name with `..` segments still yields such a text here, while node's
      `path.join` would resolve it to a path outside the root, and the
      source checks only that the file exists, not where it is. */
  predicate UnderRoot(cwd: string, d: DocumentChange) {
    var root := "file://" + cwd + "/";
    match d
    case CreateFile(u) => StartsWith(u, root)
    case DeleteFile(u) => StartsWith(u, root)
    case RenameFile(o, n) => StartsWith(o, root) && StartsWith(n, root)
    case TextDocumentEdit(u, _) => StartsWith(u, root)
  }

  lemma {:induction false} TranslateUnderRoot(cwd: string, fileExists: string -> bool, cs: seq<Change>)
    requires AllValid(cs) && Translate(cwd, fileExists, cs).Ok?
    ensures forall k :: 0 <= k < |Translate(cwd, fileExists, cs).value| ==>
      UnderRoot(cwd, Translate(cwd, fileExists, cs).value[k])
    decreases |cs|
  {
    if |cs| > 0 {
      var init := cs[..|cs| - 1];
      assert AllValid(init);
      TranslateUnderRoot(cwd, fileExists, init);
    }
  }

  /** An item without any of the four properties names its first key in
      the error. */
  lemma UnknownChangeMessage(cwd: string, fileExists: string -> bool, key: string, v: Value)
    ensures TranslateOne(cwd, fileExists, Change(Absent, Absent, Absent, Absent, [(key, v)]))
      == Err(Error("Unknown change type: " + key + ". Expected one of: create, delete, rename, modify."))
  {
  }

  /** A call `applyWorkspaceEdit` sends to nvim. */
  datatype NvimCall =
    | CreateTempBuffer
    | SetLines(buffer: string, documentChanges: seq<DocumentChange>)
    | ApplyEdit(buffer: string)
    | DeleteBuffer(buffer: string)

  /** How nvim answers each call: the temp buffer's id or an error, then for
      each later call whether its promise rejects. */
  datatype Replies = Replies(
    created: Result<string, Exception>,
    setLines: Option<Exception>,
    apply: Option<Exception>,
    deleted: Option<Exception>)

  datatype Trace = Trace(calls: seq<NvimCall>, outcome: Result<(), Exception>)

  /** The body of the `try` block, after the buffer exists. */
  function TryBlock(cwd: string, fileExists: string -> bool, p: EditParams, buffer: string, replies: Replies): (t: Trace)
    requires ValidEdit(p)
    // nothing reaches nvim unless every change translates; then the
    // buffer gets the translated changes and, unless that fails, is applied
    ensures p.changes.None? || Translate(cwd, fileExists, p.changes.value).Err? ==> t.calls == []
    ensures p.changes.Some? && Translate(cwd, fileExists, p.changes.value).Ok? ==>
      && 1 <= |t.calls| <= 2
      && t.calls[0] == SetLines(buffer, Translate(cwd, fileExists, p.changes.value).value)
      && (|t.calls| == 2 <==> replies.setLines.None?)
      && (|t.calls| == 2 ==> t.calls[1] == ApplyEdit(buffer))
    ensures t.outcome.Ok? <==>
      p.changes.Some? && Translate(cwd, fileExists, p.changes.value).Ok? && replies.setLines.None? && replies.apply.None?
  {
    match p.changes
    case None => Trace([], Err(TypeError("Cannot read properties of undefined (reading 'reduce')")))
    case Some(cs) =>
      match Translate(cwd, fileExists, cs)
      case Err(e) => Trace([], Err(e))
      case Ok(dc) =>
        if replies.setLines.Some? then Trace([SetLines(buffer, dc)], Err(replies.setLines.value))
        else if replies.apply.Some? then Trace([SetLines(buffer, dc), ApplyEdit(buffer)], Err(replies.apply.value))
        else Trace([SetLines(buffer, dc), ApplyEdit(buffer)], Ok(()))
  }

  /** `applyWorkspaceEdit(params)`: validation, temp buffer, try, finally.
      An error thrown in `finally` replaces the one from `try`. */
  function ApplyWorkspaceEdit(cwd: string, fileExists: string -> bool, p: EditParams, replies: Replies): (t: Trace)
    // it resolves exactly when the arguments are valid, the changes
    // translate and every nvim call succeeds
    ensures t.outcome.Ok? <==>
      && ValidEdit(p) && p.changes.Some? && Translate(cwd, fileExists, p.changes.value).Ok?
      && replies.created.Ok? && replies.setLines.None? && replies.apply.None? && replies.deleted.None?
    // nothing is sent before validation passes
    ensures !ValidEdit(p) ==> t.calls == []
  {
    match ValidateSchema("applyWorkspaceEdit", Edit(p))
    case Err(e) => Trace([], Err(e))
    case Ok(_) =>
      match replies.created
      case Err(e) => Trace([CreateTempBuffer], Err(e))
      case Ok(buffer) =>
        var t := TryBlock(cwd, fileExists, p, buffer, replies);
        Trace([CreateTempBuffer] + t.calls + [DeleteBuffer(buffer)],
              if replies.deleted.Some? then Err(replies.deleted.value) else t.outcome)
  }

  /** Invalid arguments send nothing. */
  lemma InvalidEditSendsNothing(cwd: string, fileExists: string -> bool, p: EditParams, replies: Replies)
    requires !ValidEdit(p)
    ensures ApplyWorkspaceEdit(cwd, fileExists, p, replies).calls == []
    ensures ApplyWorkspaceEdit(cwd, fileExists, p, replies).outcome.Err?
  {
  }

  /** Once the temp buffer exists, deleting it is the last call, whatever
      fails before. */
  lemma TempBufferDeletedLast(cwd: string, fileExists: string -> bool, p: EditParams, replies: Replies)
    requires ValidEdit(p) && replies.created.Ok?
    ensures var calls := ApplyWorkspaceEdit(cwd, fileExists, p, replies).calls;
      && |calls| >= 2
      && calls[0] == CreateTempBuffer
      && Last(calls) == DeleteBuffer(replies.created.value)
      && forall k :: 0 < k < |calls| - 1 ==> !calls[k].CreateTempBuffer? && !calls[k].DeleteBuffer?
  {
    var buffer := replies.created.value;
    var inner := TryBlock(cwd, fileExists, p, buffer, replies).calls;
    assert ApplyWorkspaceEdit(cwd, fileExists, p, replies).calls == [CreateTempBuffer] + inner + [DeleteBuffer(buffer)];
    assert forall k :: 0 <= k < |inner| ==> inner[k].SetLines? || inner[k].ApplyEdit?;
  }

  /** A translation that fails (a missing file, an unknown change, or no
      `changes` at all) fails before anything is written to the buffer or
      applied; the buffer is still deleted, and the translation's error is
      what the call rejects with unless the delete itself fails. */
  lemma NoApplyAfterTranslationFailure(cwd: string, fileExists: string -> bool, p: EditParams, replies: Replies)
    requires ValidEdit(p) && replies.created.Ok?
    requires p.changes.None? || Translate(cwd, fileExists, p.changes.value).Err?
    ensures var t := ApplyWorkspaceEdit(cwd, fileExists, p, replies);
      && t.calls == [CreateTempBuffer, DeleteBuffer(replies.created.value)]
      && (replies.deleted.None? && p.changes.Some? ==> t.outcome == Err(Translate(cwd, fileExists, p.changes.value).error))
      && (replies.deleted.None? && p.changes.None? ==> t.outcome.Err? && t.outcome.error.name == TypeErrorName)
  {
    var buffer := replies.created.value;
    var inner := TryBlock(cwd, fileExists, p, buffer, replies);
    assert inner.calls == [] && inner.outcome.Err?;
    assert p.changes.Some? ==> inner.outcome == Err(Translate(cwd, fileExists, p.changes.value).error);
    assert [CreateTempBuffer] + inner.calls + [DeleteBuffer(buffer)] == [CreateTempBuffer, DeleteBuffer(buffer)];
  }

  /** When every call succeeds, the buffer receives the translation of the
      changes, it is applied, and the call resolves. */
  lemma SuccessfulEdit(cwd: string, fileExists: string -> bool, cs: seq<Change>, replies: Replies)
    requires ValidEdit(EditParams(Some(cs)))
    requires Translate(cwd, fileExists, cs).Ok?
    requires replies.created.Ok? && replies.setLines.None? && replies.apply.None? && replies.deleted.None?
    ensures var buffer := replies.created.value;
      ApplyWorkspaceEdit(cwd, fileExists, EditParams(Some(cs)), replies) ==
        Trace([CreateTempBuffer, SetLines(buffer, Translate(cwd, fileExists, cs).value), ApplyEdit(buffer), DeleteBuffer(buffer)], Ok(()))
  {
  }
}
