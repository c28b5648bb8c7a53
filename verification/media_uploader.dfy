/** The selection list of the `MediaUploader` component: the files the user
    has picked, adding to it (with duplicates of held files dropped),
    removing one entry, and turning it into the submitted form. */
module MediaUploader {
  import opened Optional
  import opened Decimal
  import opened JsBuiltins

  /** The fields of a browser `File` the component reads. */
  datatype SelectedFile = SelectedFile(name: string, lastModified: int, mimeType: string)

  /** Two files count as the same pick when name and modification time agree. */
  predicate SamePick(a: SelectedFile, b: SelectedFile) {
    a.name == b.name && a.lastModified == b.lastModified
  }

  /** `files.find(...)` succeeds: some held file is the same pick as `f`. */
  predicate Held(held: seq<SelectedFile>, f: SelectedFile) {
    exists i :: 0 <= i < |held| && SamePick(held[i], f)
  }

  /** The picks not already held, in the order they came: the `filter` of `handleFilesChange`. */
  function NotHeld(held: seq<SelectedFile>, incoming: seq<SelectedFile>): (newFiles: seq<SelectedFile>)
    ensures |newFiles| <= |incoming|
  {
    if |incoming| == 0 then []
    else (if Held(held, incoming[0]) then [] else [incoming[0]]) + NotHeld(held, incoming[1..])
  }

  /** The filter drops every held pick and keeps every other one as often as it came. */
  lemma {:induction false} NotHeldCounts(held: seq<SelectedFile>, incoming: seq<SelectedFile>)
    ensures forall f :: multiset(NotHeld(held, incoming))[f] == if Held(held, f) then 0 else multiset(incoming)[f]
    decreases |incoming|
  {
    if |incoming| > 0 {
      assert incoming == [incoming[0]] + incoming[1..];
      NotHeldCounts(held, incoming[1..]);
    }
  }

  /** Filtering a batch piece by piece gives the filtered batch: the filter keeps order. */
  lemma {:induction false} NotHeldConcat(held: seq<SelectedFile>, a: seq<SelectedFile>, b: seq<SelectedFile>)
    ensures NotHeld(held, a + b) == NotHeld(held, a) + NotHeld(held, b)
    decreases |a|, 1
  {
    if |a| > 0 {
      NotHeldConcatFirst(held, a, b);
    } else {
      assert a + b == b;
    }
  }

  lemma {:induction false} NotHeldConcatFirst(held: seq<SelectedFile>, a: seq<SelectedFile>, b: seq<SelectedFile>)
    requires |a| > 0
    ensures NotHeld(held, a + b) == NotHeld(held, a) + NotHeld(held, b)
    decreases |a|, 0
  {
    var head := if Held(held, a[0]) then [] else [a[0]];
    assert (a + b)[1..] == a[1..] + b;
    assert NotHeld(held, a + b) == head + NotHeld(held, a[1..] + b);
    assert NotHeld(held, a) == head + NotHeld(held, a[1..]);
    NotHeldConcat(held, a[1..], b);
    var x, y := NotHeld(held, a[1..]), NotHeld(held, b);
    assert head + (x + y) == (head + x) + y;
  }

  /** `handleFilesChange`: `picked` is `e.target.files` (absent when the
      browser gives none). The held files stay first and untouched; after
      them come the picks not already held, in the order they were picked and
      each as often as it was picked. */
  function SelectFiles(held: seq<SelectedFile>, picked: Option<seq<SelectedFile>>): (r: seq<SelectedFile>)
    ensures held <= r
    ensures picked.Some? ==> r[|held|..] == NotHeld(held, picked.value)
    ensures forall k :: |held| <= k < |r| ==> !Held(held, r[k])
    ensures picked.None? ==> r == held
    ensures picked.Some? ==>
      forall f :: multiset(r[|held|..])[f] == if Held(held, f) then 0 else multiset(picked.value)[f]
  {
    match picked
    case None => held
    case Some(incoming) =>
      NotHeldCounts(held, incoming);
      var newFiles := NotHeld(held, incoming);
      if |newFiles| > 0 then
        assert (held + newFiles)[|held|..] == newFiles;
        forall k | |held| <= k < |held| + |newFiles| ensures !Held(held, (held + newFiles)[k]) {
          assert (held + newFiles)[k] in multiset(newFiles);
        }
        held + newFiles
      else held
  }

  /** A pick leaves the list unchanged exactly when every picked file is already held. */
  lemma SelectAllHeldUnchanged(held: seq<SelectedFile>, incoming: seq<SelectedFile>)
    ensures SelectFiles(held, Some(incoming)) == held <==> forall i :: 0 <= i < |incoming| ==> Held(held, incoming[i])
  {
    var newFiles := NotHeld(held, incoming);
    NotHeldCounts(held, incoming);
    if forall i :: 0 <= i < |incoming| ==> Held(held, incoming[i]) {
      assert multiset(newFiles) == multiset{};
    } else {
      var i :| 0 <= i < |incoming| && !Held(held, incoming[i]);
      assert incoming[i] in multiset(incoming);
      assert incoming[i] in multiset(newFiles);
    }
  }

  /** Picking the same batch a second time changes nothing. */
  lemma SelectIdempotent(held: seq<SelectedFile>, incoming: seq<SelectedFile>)
    ensures SelectFiles(SelectFiles(held, Some(incoming)), Some(incoming)) == SelectFiles(held, Some(incoming))
  {
    var r := SelectFiles(held, Some(incoming));
    forall i | 0 <= i < |incoming|
      ensures Held(r, incoming[i])
    {
      var f := incoming[i];
      if Held(held, f) {
        var j :| 0 <= j < |held| && SamePick(held[j], f);
        assert r[j] == held[j];
      } else {
        assert f in multiset(incoming);
        assert f in multiset(r[|held|..]);
        var k :| 0 <= k < |r[|held|..]| && r[|held|..][k] == f;
        assert r[|held| + k] == f;
      }
    }
    SelectAllHeldUnchanged(r, incoming);
  }

  /** `handleRemoveFile(index)`: `[...prev.slice(0, index), ...prev.slice(index + 1)]`. */
  function RemoveAt(held: seq<SelectedFile>, index: int): (r: seq<SelectedFile>)
    ensures 0 <= index < |held| ==>
      && |r| == |held| - 1
      && r[..index] == held[..index]
      && (forall k :: index <= k < |r| ==> r[k] == held[k + 1])
    ensures index >= |held| || index < -|held| ==> r == held
  {
    Slice(held, 0, index) + SliceFrom(held, index + 1)
  }

  /** Putting the removed entry back where it was restores the list. */
  lemma RemoveThenReinsert(held: seq<SelectedFile>, index: int)
    requires 0 <= index < |held|
    ensures var r := RemoveAt(held, index);
      r[..index] + [held[index]] + r[index..] == held
  {
    var r := RemoveAt(held, index);
    assert r[index..] == held[index + 1..];
    assert held == held[..index] + [held[index]] + held[index + 1..];
  }

  /** A negative index counts back from the end, as `slice` does: from -2
      down to `-|held|` it removes the entry that many places from the end. */
  lemma RemoveNegativeIndex(held: seq<SelectedFile>, index: int)
    requires -|held| <= index <= -2
    ensures RemoveAt(held, index) == RemoveAt(held, |held| + index)
  {
  }

  /** An index of -1 keeps everything but the last entry and then appends the
      whole list again: `slice(0, -1)` stops before the end while `slice(0)`
      takes everything. */
  lemma RemoveMinusOne(held: seq<SelectedFile>)
    requires |held| > 0
    ensures RemoveAt(held, -1) == held[..|held| - 1] + held
    ensures |RemoveAt(held, -1)| == 2 * |held| - 1
  {
  }

  // ----- Submission -----

  /** The value `handleSubmit` sends when the trimmed name is empty. */
  const FallbackName: string := "Anonim"

  /** `name.trim() || 'Anonim'`. */
  function SubmittedName(name: string): (r: string)
    ensures |r| > 0
    ensures !IsTrimmable(r[0]) && !IsTrimmable(r[|r| - 1])
    ensures (forall i :: 0 <= i < |name| ==> IsTrimmable(name[i])) ==> r == FallbackName
    ensures (exists i :: 0 <= i < |name| && !IsTrimmable(name[i])) ==> r == Trim(name)
  {
    var t := Trim(name);
    if |t| == 0 then FallbackName else t
  }

  datatype FormValue = Text(text: string) | Attachment(file: SelectedFile)

  datatype FormEntry = FormEntry(key: string, value: FormValue)

  /** The key of the `i`-th file: `files[i]`. */
  function FileKey(i: nat): string {
    "files[" + NatToString(i) + "]"
  }

  /** `handleSubmit`: nothing when no file is selected; otherwise the form
      with the name first and then each file under its index, in list order. */
  function Submit(name: string, files: seq<SelectedFile>): (form: Option<seq<FormEntry>>)
    ensures form.None? <==> |files| == 0
    ensures form.Some? ==> |form.value| == |files| + 1
  {
    if |files| == 0 then None
    else Some([FormEntry("name", Text(SubmittedName(name)))]
              + seq(|files|, i requires 0 <= i < |files| => FormEntry(FileKey(i), Attachment(files[i]))))
  }

  /** `formData.get(key)`: the value of the first entry with that key. */
  function Lookup(form: seq<FormEntry>, key: string): Option<FormValue> {
    if |form| == 0 then None
    else if form[0].key == key then Some(form[0].value)
    else Lookup(form[1..], key)
  }

  lemma {:induction false} LookupFirst(form: seq<FormEntry>, k: nat)
    requires k < |form|
    requires forall j :: 0 <= j < k ==> form[j].key != form[k].key
    ensures Lookup(form, form[k].key) == Some(form[k].value)
    decreases k
  {
    if k > 0 {
      LookupFirst(form[1..], k - 1);
    }
  }

  lemma FileKeysDistinct(i: nat, j: nat)
    requires i != j
    ensures FileKey(i) != FileKey(j)
  {
    if FileKey(i) == FileKey(j) {
      var c := FileKey(i);
      assert NatToString(i) == c[6 .. |c| - 1];
      assert NatToString(j) == c[6 .. |c| - 1];
      NatToStringInjective(i, j);
    }
  }

  /** The layout of a submitted form: the name entry, then file `j` under `files[j]`. */
  predicate FormLayout(form: seq<FormEntry>, nameValue: string, files: seq<SelectedFile>) {
    && |form| == |files| + 1
    && form[0] == FormEntry("name", Text(nameValue))
    && forall j :: 0 <= j < |files| ==> form[j + 1] == FormEntry(FileKey(j), Attachment(files[j]))
  }

  lemma SubmitLayout(name: string, files: seq<SelectedFile>)
    requires |files| > 0
    ensures FormLayout(Submit(name, files).value, SubmittedName(name), files)
  {
  }

  /** Reading the submitted form back by key gives the submitted name and
      every selected file at its index: no key is used twice. */
  lemma SubmitReadBack(name: string, files: seq<SelectedFile>)
    requires |files| > 0
    ensures var form := Submit(name, files).value;
      && Lookup(form, "name") == Some(Text(SubmittedName(name)))
      && forall i :: 0 <= i < |files| ==> Lookup(form, FileKey(i)) == Some(Attachment(files[i]))
  {
    var form := Submit(name, files).value;
    SubmitLayout(name, files);
    forall i | 0 <= i < |files|
      ensures Lookup(form, FileKey(i)) == Some(Attachment(files[i]))
    {
      LayoutReadBack(form, SubmittedName(name), files, i);
    }
  }

  /** In a form with that layout, `files[i]` finds the `i`-th file. */
  lemma LayoutReadBack(form: seq<FormEntry>, nameValue: string, files: seq<SelectedFile>, i: nat)
    requires FormLayout(form, nameValue, files) && i < |files|
    ensures Lookup(form, FileKey(i)) == Some(Attachment(files[i]))
  {
    forall j | 0 <= j < i + 1
      ensures form[j].key != FileKey(i)
    {
      if j == 0 {
        assert FileKey(i)[0] == 'f';
      } else {
        FileKeysDistinct(j - 1, i);
      }
    }
    LookupAt(form, i + 1, FileKey(i), Attachment(files[i]));
  }

  /** The entry at `k` is the one found when no earlier entry has its key. */
  lemma LookupAt(form: seq<FormEntry>, k: nat, key: string, v: FormValue)
    requires k < |form| && form[k] == FormEntry(key, v)
    requires forall j :: 0 <= j < k ==> form[j].key != key
    ensures Lookup(form, key) == Some(v)
  {
    LookupFirst(form, k);
  }
}
