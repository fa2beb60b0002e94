/**
 * The labeler's session state: the label table loaded from the coordinates file, the
 * position of the patch on screen, the progress counters and the annotation field, with
 * the handlers that change them (setup, committing the field, the arrow keys, saving).
 */
module Session {
  import opened Results
  import opened Text
  import opened PatchId
  import opened LabelTable

  const ArrowRight := "Arrow Right"
  const ArrowLeft := "Arrow Left"

  /**
   * What committing the field does to the table: the stripped text becomes the label of
   * the current key when it is not blank; otherwise nothing changes.
   */
  function CommitLabel(t: Table, idx: int, field: string): (r: Table)
    requires DistinctKeys(t) && 0 <= idx < |t|
    ensures Keys(r) == Keys(t) && DistinctKeys(r)
    ensures Strip(field) == "" ==> r == t
    ensures Strip(field) != "" ==> r == t[idx := Entry(t[idx].pid, Strip(field))]
  {
    if Strip(field) != "" then
      InsertAt(t, idx, Strip(field));
      Insert(t, Keys(t)[idx], Strip(field))
    else t
  }

  /** A labelled entry never loses its label, so the number of labelled entries never drops. */
  lemma CommitKeepsLabels(t: Table, idx: int, field: string)
    requires DistinctKeys(t) && 0 <= idx < |t|
    ensures var r := CommitLabel(t, idx, field);
      && (forall j :: 0 <= j < |t| && t[j].annotation != "" ==> r[j].annotation != "")
      && CountDone(t) <= CountDone(r)
  {
    var r := CommitLabel(t, idx, field);
    forall j | 0 <= j < |t| && t[j].annotation != "" ensures r[j].annotation != "" {
      if j == idx && Strip(field) != "" {
        assert r[j].annotation == Strip(field);
      }
    }
    CountDoneMonotone(t, r);
  }

  /** What `update_current_page` relies on: the commit is the dict write of the stripped text, or nothing. */
  lemma CommitStep(t: Table, idx: int, field: string, text: string)
    requires DistinctKeys(t) && 0 <= idx < |t| && text == Strip(field)
    ensures var r := CommitLabel(t, idx, field);
      && |r| == |t| && Keys(r) == Keys(t) && DistinctKeys(r)
      && SessionIndexes(t).0 <= SessionIndexes(r).0 && SessionIndexes(t).1 == SessionIndexes(r).1
      && (field != "" && text != "" ==>
            r == Insert(t, Keys(t)[idx], text) && r[idx].annotation == text)
      && (!(field != "" && text != "") ==> r == t)
  {
    CommitKeepsLabels(t, idx, field);
    if field != "" && Strip(field) != "" {
      InsertAt(t, idx, Strip(field));
      assert Keys(t)[idx] == t[idx].pid;
    }
  }

  /**
   * Committing the text the field shows after a move (the stored label, stripped) changes
   * nothing when the stored label is already stripped, as every label the session writes is.
   */
  lemma CommitShownLabel(t: Table, idx: int)
    requires DistinctKeys(t) && 0 <= idx < |t|
    requires Strip(t[idx].annotation) == t[idx].annotation
    ensures CommitLabel(t, idx, Strip(t[idx].annotation)) == t
  {
    var stored := t[idx].annotation;
    assert Strip(Strip(stored)) == stored;
    if stored != "" {
      assert Entry(t[idx].pid, stored) == t[idx];
      assert t[idx := t[idx]] == t;
    }
  }

  /** Where the arrow keys move: one step right or left, never past either end. */
  function NextIndex(key: string, idx: int, len: int): (r: int)
    requires 0 <= idx < len
    ensures 0 <= r < len
    ensures r == idx + 1 <==> key == ArrowRight && idx < len - 1
    ensures r == idx - 1 <==> key == ArrowLeft && idx > 0
    ensures r == idx || r == idx + 1 || r == idx - 1
  {
    if key == ArrowRight && idx < len - 1 then idx + 1
    else if key == ArrowLeft && idx > 0 then idx - 1
    else idx
  }

  class AnnotationSession {
    var labels: Table         // the label table being edited
    var patches: seq<string>  // the identifiers in table order, the navigation list
    var currentIdx: int
    var doneIdx: nat
    var totalIdx: nat
    var field: string         // the annotation field's text; the operator edits it freely
    var slidesDir: string
    var shown: PatchLocation  // the crop on screen

    /** The table keeps distinct keys, the navigation list is its keys, the position is in range and the counters are current. */
    ghost predicate Valid()
      reads this`labels, this`patches, this`currentIdx, this`doneIdx, this`totalIdx
    {
      && DistinctKeys(labels)
      && patches == Keys(labels)
      && 0 <= currentIdx < |labels|
      && (doneIdx, totalIdx) == SessionIndexes(labels)
    }

    constructor (t: Table, dir: string, first: PatchLocation)
      requires DistinctKeys(t) && |t| > 0
      ensures Valid()
      ensures labels == t && patches == Keys(t) && currentIdx == 0
      ensures field == t[0].annotation && slidesDir == dir && shown == first
    {
      currentIdx := 0;
      labels := t;
      var (done, total) := SessionIndexes(t);
      doneIdx, totalIdx := done, total;
      patches := Keys(t);
      slidesDir := dir;
      shown := first;
      var stored := Get(t, t[0].pid);
      field := stored.value;
    }

    /** The operator types into the editable annotation field: its text is replaced and nothing else changes. */
    method Edit(text: string)
      requires Valid()
      modifies this`field
      ensures Valid()
      ensures field == text
    {
      field := text;
    }

    /** `update_progress_idx`: recount the labelled entries. */
    method UpdateProgressIdx()
      modifies this`doneIdx, this`totalIdx
      ensures (doneIdx, totalIdx) == SessionIndexes(labels)
    {
      var (done, total) := SessionIndexes(labels);
      doneIdx, totalIdx := done, total;
    }

    /** `update_current_page`: commit the field to the current entry when it is not blank. */
    method UpdateCurrentPage()
      requires Valid()
      modifies this`labels, this`doneIdx, this`totalIdx
      ensures Valid()
      ensures labels == CommitLabel(old(labels), old(currentIdx), old(field))
      ensures doneIdx >= old(doneIdx) && totalIdx == old(totalIdx)
      ensures Strip(field) != "" ==> labels[currentIdx].annotation == Strip(field)
    {
      var text := Strip(field);
      CommitStep(labels, currentIdx, field, text);
      if field != "" && text != "" {
        labels := Insert(labels, Keys(labels)[currentIdx], text);
        UpdateProgressIdx();
      }
    }

    /** The arrow-key branch of `on_keyboard`: commit, then move one step when there is room. */
    method OnKeyboard(key: string)
      requires Valid()
      modifies this`labels, this`doneIdx, this`totalIdx, this`currentIdx, this`field, this`shown
      ensures Valid()
      ensures key != ArrowRight && key != ArrowLeft ==>
        labels == old(labels) && currentIdx == old(currentIdx) && field == old(field) && shown == old(shown)
      ensures key == ArrowRight || key == ArrowLeft ==>
        && labels == CommitLabel(old(labels), old(currentIdx), old(field))
        && currentIdx == NextIndex(key, old(currentIdx), |labels|)
      ensures currentIdx != old(currentIdx) ==> Showing(old(shown))
      ensures currentIdx == old(currentIdx) ==> field == old(field) && shown == old(shown)
      ensures (key == ArrowRight || key == ArrowLeft) && Strip(old(field)) != "" ==>
        labels[old(currentIdx)].annotation == Strip(old(field))
      ensures doneIdx >= old(doneIdx) && totalIdx == old(totalIdx)
    {
      if key == ArrowRight || key == ArrowLeft {
        UpdateCurrentPage();
        Step(key);
      }
    }

    /**
     * The field shows the current entry's stored label, stripped, and the screen shows the
     * crop of the current identifier, or `before` when that identifier does not decode.
     */
    ghost predicate Showing(before: PatchLocation)
      reads this`labels, this`patches, this`currentIdx, this`field, this`shown, this`slidesDir
    {
      && 0 <= currentIdx < |labels| && currentIdx < |patches|
      && field == Strip(labels[currentIdx].annotation)
      && shown == (if Locate(slidesDir, patches[currentIdx]).Ok? then Locate(slidesDir, patches[currentIdx]).value else before)
    }

    /** The move after the commit: right when not at the last entry, left when not at the first. */
    method Step(key: string)
      requires Valid()
      modifies this`currentIdx, this`field, this`shown
      ensures Valid()
      ensures currentIdx == NextIndex(key, old(currentIdx), |labels|)
      ensures currentIdx != old(currentIdx) ==> Showing(old(shown))
      ensures currentIdx == old(currentIdx) ==> field == old(field) && shown == old(shown)
    {
      if key == ArrowRight && currentIdx < |labels| - 1 {
        currentIdx := currentIdx + 1;
        Show();
      } else if key == ArrowLeft && currentIdx > 0 {
        currentIdx := currentIdx - 1;
        Show();
      }
    }

    /**
     * After a move: the field shows the stored label, stripped, and the crop of the new
     * identifier is rendered; an identifier that does not decode raises before the
     * picture changes, so the previous crop stays on screen.
     */
    method Show()
      requires Valid()
      modifies this`field, this`shown
      ensures Showing(old(shown))
    {
      var pid := patches[currentIdx];
      GetAt(labels, currentIdx);
      var stored := Get(labels, pid);
      var location := Locate(slidesDir, pid);
      field := Strip(stored.value);
      if location.Ok? {
        shown := location.value;
      }
    }

    /**
     * `update_csv_with_values`: commit the field, then hand every entry, in table order,
     * to the file writer; reading those rows back gives the table again.
     */
    method UpdateCsvWithValues() returns (rows: seq<Entry>)
      requires Valid()
      modifies this`labels, this`doneIdx, this`totalIdx
      ensures Valid()
      ensures labels == CommitLabel(old(labels), currentIdx, field)
      ensures rows == labels && FromRows(rows) == labels
    {
      UpdateCurrentPage();
      rows := labels;
      FromDistinctRows(rows);
    }
  }

  /**
   * `on_setup_start`: load the table, start at the first patch and render it. An empty
   * table, or a first identifier that does not decode, raises before the labelling
   * controls exist, which leaves no session (`null`).
   */
  method OnSetupStart(rows: seq<Entry>, slidesDir: string) returns (s: AnnotationSession?)
    ensures var t := FromRows(rows);
      s == null <==> |t| == 0 || Locate(slidesDir, t[0].pid).Err?
    ensures s != null ==>
      && fresh(s) && s.Valid()
      && s.labels == FromRows(rows) && s.patches == Keys(s.labels) && s.currentIdx == 0
      && s.field == s.labels[0].annotation && s.slidesDir == slidesDir
      && Locate(slidesDir, s.patches[0]) == Ok(s.shown)
  {
    var t := FromRows(rows);
    if |t| == 0 {
      return null;
    }
    var first := Locate(slidesDir, Keys(t)[0]);
    if first.Err? {
      return null;
    }
    s := new AnnotationSession(t, slidesDir, first.value);
  }
}
