/**
 * The quiz half of the combined builder (`builder.py`): saving a question
 * from the form into the questions file, loading one back for editing,
 * deleting one, and the order of the question list.
 *
 * The form has five option boxes, each with a "correct" checkbox. A save
 * keeps the filled boxes, derives the correct answers from the checked
 * filled boxes, upserts the record by id and copies the form's tag and
 * description onto every question of the same set.
 */
module McqEditor {
  import opened Wrappers
  import opened Strings
  import opened StableSort
  import ArticleEditor

  /** The `correct` entry of a stored question: a list (as the builder writes
      it), a bare string (older files), or absent. */
  datatype CorrectField = CMissing | CList(answers: seq<string>) | CString(answer: string)

  /** One record of the questions file. Keys the builder may find missing are
      options; `None` is a missing key. */
  datatype Mcq = Mcq(
    id: string,
    setId: Option<int>,
    category: Option<string>,
    tag: Option<string>,
    description: Option<string>,
    question: string,
    imageUrl: string,
    options: seq<string>,
    correct: CorrectField,
    explanation: string)

  /** The question form. `question` and `explanation` are Text widget
      contents without Tk's trailing newline. `setNum` is the number
      `IntVar.get()` reads from the set box, `None` when the box holds text
      Tcl reads as no number and the call raises `TclError`. */
  datatype McqForm = McqForm(
    id: string,
    setNum: Option<int>,
    category: string,
    tag: string,
    description: string,
    question: string,
    imageUrl: string,
    options: seq<string>,
    flags: seq<bool>,
    explanation: string)

  /** The three checks of `save_mcq`, and the `TclError` `IntVar.get()`
      raises after them when the set box holds no number. */
  datatype SaveError = EmptyQuestion | TooFewOptions | NoCorrectOption | UnreadableSetNumber

  const OptionBoxes := 5

  /** The form has its five option boxes and five checkboxes. */
  predicate WellFormed(form: McqForm) {
    |form.options| == OptionBoxes && |form.flags| == OptionBoxes
  }

  /** The questions file; a missing or unreadable file reads as empty. */
  function AllMcqs(store: Option<seq<Mcq>>): seq<Mcq> {
    match store
    case None => []
    case Some(mcqs) => mcqs
  }

  // ---------------------------------------------------------------------------
  // Options and answers
  // ---------------------------------------------------------------------------

  /** `a` can be obtained from `b` by dropping elements. */
  predicate IsSubsequence(a: seq<string>, b: seq<string>) {
    |a| == 0 || (|b| > 0 && ((a[0] == b[0] && IsSubsequence(a[1..], b[1..])) || IsSubsequence(a, b[1..])))
  }

  lemma {:induction false} SubsequenceMembers(a: seq<string>, b: seq<string>)
    requires IsSubsequence(a, b)
    ensures forall x :: x in a ==> x in b
    decreases |b|
  {
    if |a| > 0 {
      if IsSubsequence(a, b[1..]) {
        SubsequenceMembers(a, b[1..]);
      } else {
        SubsequenceMembers(a[1..], b[1..]);
        assert a == [a[0]] + a[1..];
      }
    }
  }

  /** Each box's text with surrounding whitespace removed. */
  function StripAll(boxes: seq<string>): (r: seq<string>)
    ensures |r| == |boxes| && forall i :: 0 <= i < |boxes| ==> r[i] == Strip(boxes[i])
  {
    seq(|boxes|, i requires 0 <= i < |boxes| => Strip(boxes[i]))
  }

  /** The non-empty texts, in order. */
  function NonEmpty(ss: seq<string>): (r: seq<string>)
    ensures |r| <= |ss|
    ensures forall k :: 0 <= k < |r| ==> r[k] != ""
    ensures forall x :: x in r <==> x in ss && x != ""
  {
    if |ss| == 0 then []
    else (if ss[0] != "" then [ss[0]] else []) + NonEmpty(ss[1..])
  }

  /** The non-empty texts whose checkbox is set, in order. */
  function Checked(ss: seq<string>, flags: seq<bool>): (r: seq<string>)
    requires |ss| == |flags|
    ensures |r| <= |ss|
    ensures forall x :: x in r <==> x != "" && exists i :: 0 <= i < |ss| && flags[i] && ss[i] == x
  {
    if |ss| == 0 then []
    else
      var rest := Checked(ss[1..], flags[1..]);
      assert forall i :: 1 <= i < |ss| ==> ss[i] == ss[1..][i - 1] && flags[i] == flags[1..][i - 1];
      (if flags[0] && ss[0] != "" then [ss[0]] else []) + rest
  }

  /** The options a save keeps: the stripped texts of the filled boxes. */
  function FilledOptions(boxes: seq<string>): seq<string> {
    NonEmpty(StripAll(boxes))
  }

  /** The answers a save keeps: the stripped texts of the checked, filled
      boxes. */
  function MarkedOptions(boxes: seq<string>, flags: seq<bool>): seq<string>
    requires |boxes| == |flags|
  {
    Checked(StripAll(boxes), flags)
  }

  /** Every saved option is non-empty and already stripped. */
  lemma FilledAreClean(boxes: seq<string>)
    ensures forall k :: 0 <= k < |FilledOptions(boxes)| ==>
      FilledOptions(boxes)[k] != "" && Strip(FilledOptions(boxes)[k]) == FilledOptions(boxes)[k]
  {
    var ss := StripAll(boxes);
    forall k | 0 <= k < |NonEmpty(ss)|
      ensures Strip(NonEmpty(ss)[k]) == NonEmpty(ss)[k]
    {
      var x := NonEmpty(ss)[k];
      assert x in ss;
      var i :| 0 <= i < |ss| && ss[i] == x;
      StripIdempotent(boxes[i]);
    }
  }

  /** The checked texts are the non-empty texts with the unchecked ones
      dropped, in the same order. */
  lemma {:induction false} CheckedIsSubsequence(ss: seq<string>, flags: seq<bool>)
    requires |ss| == |flags|
    ensures IsSubsequence(Checked(ss, flags), NonEmpty(ss))
    decreases |ss|
  {
    if |ss| > 0 {
      CheckedIsSubsequence(ss[1..], flags[1..]);
      var m, f := Checked(ss[1..], flags[1..]), NonEmpty(ss[1..]);
      var s := ss[0];
      if s != "" {
        if flags[0] {
          assert Checked(ss, flags) == [s] + m;
          assert ([s] + m)[1..] == m;
        } else {
          assert Checked(ss, flags) == m;
        }
        assert NonEmpty(ss) == [s] + f;
        assert ([s] + f)[1..] == f;
      } else {
        assert Checked(ss, flags) == m;
        assert NonEmpty(ss) == f;
      }
    }
  }

  /** No answer is kept exactly when no checked box is filled. */
  lemma NoMarkedOptions(boxes: seq<string>, flags: seq<bool>)
    requires |boxes| == |flags|
    ensures MarkedOptions(boxes, flags) == [] <==> forall i :: 0 <= i < |boxes| ==> !flags[i] || Strip(boxes[i]) == ""
  {
    var ss := StripAll(boxes);
    var r := Checked(ss, flags);
    if r != [] {
      assert r[0] in r;
    }
    forall i | 0 <= i < |boxes| && flags[i] && Strip(boxes[i]) != ""
      ensures r != []
    {
      assert ss[i] in r;
    }
  }

  // ---------------------------------------------------------------------------
  // Saving
  // ---------------------------------------------------------------------------

  /** The record the form saves, under id `id`. */
  function RecordOf(form: McqForm, id: string): Mcq
    requires WellFormed(form) && form.setNum.Some?
  {
    Mcq(id, form.setNum, Some(Strip(form.category)), Some(Strip(form.tag)),
        Some(Strip(form.description)), Strip(ArticleEditor.TextGet(form.question)),
        Strip(form.imageUrl), FilledOptions(form.options),
        CList(MarkedOptions(form.options, form.flags)),
        Strip(ArticleEditor.TextGet(form.explanation)))
  }

  /** Position of the first record with id `id`. */
  function IdIndex(mcqs: seq<Mcq>, id: string): (r: Option<nat>)
    ensures r.Some? ==> r.value < |mcqs| && mcqs[r.value].id == id
    ensures r.Some? ==> forall j :: 0 <= j < r.value ==> mcqs[j].id != id
    ensures r.None? <==> forall j :: 0 <= j < |mcqs| ==> mcqs[j].id != id
  {
    if |mcqs| == 0 then None
    else if mcqs[0].id == id then Some(0)
    else
      match IdIndex(mcqs[1..], id)
      case None => None
      case Some(i) => Some(i + 1)
  }

  /** Replaces the first record with `m`'s id, or appends `m` at the end. */
  function UpsertById(mcqs: seq<Mcq>, m: Mcq): (r: seq<Mcq>)
    ensures IdIndex(mcqs, m.id).None? ==> r == mcqs + [m]
    ensures IdIndex(mcqs, m.id).Some? ==>
      var i := IdIndex(mcqs, m.id).value;
      |r| == |mcqs| && r[i] == m && forall j :: 0 <= j < |r| && j != i ==> r[j] == mcqs[j]
  {
    match IdIndex(mcqs, m.id)
    case None => mcqs + [m]
    case Some(i) => mcqs[i := m]
  }

  /** The record belongs to set `setNum` of category `category`, compared
      exactly (no case folding). */
  predicate InSet(m: Mcq, setNum: int, category: string) {
    m.setId == Some(setNum) && m.category == Some(category)
  }

  /** Every question of the set takes the tag and description; every other
      record, and every other field, stays as it was. */
  function SyncSet(mcqs: seq<Mcq>, setNum: int, category: string, tag: string, description: string): (r: seq<Mcq>)
    ensures |r| == |mcqs|
    ensures forall i :: 0 <= i < |r| && InSet(mcqs[i], setNum, category) ==>
      r[i] == mcqs[i].(tag := Some(tag), description := Some(description))
    ensures forall i :: 0 <= i < |r| && !InSet(mcqs[i], setNum, category) ==> r[i] == mcqs[i]
  {
    if |mcqs| == 0 then []
    else
      var m := mcqs[0];
      var rest := SyncSet(mcqs[1..], setNum, category, tag, description);
      [if InSet(m, setNum, category) then m.(tag := Some(tag), description := Some(description)) else m] + rest
  }

  /** The id a save uses: the form's, or a fresh one when the form has none. */
  function SaveId(form: McqForm, freshId: string): string {
    if form.id == "" then freshId else form.id
  }

  /** `m` belongs to the set of `record`: same set number and exactly the
      same category. */
  predicate SameSet(m: Mcq, record: Mcq) {
    m.setId == record.setId && m.category == record.category
  }

  /** What saving `record` does to the file `before`, giving `after`: the
      record sits at its id (in place of the first record with that id, else
      at the end), every question of its set carries its tag and description,
      and every other position, later duplicates of the id included, keeps
      its record apart from that. */
  predicate SaveOutcome(before: seq<Mcq>, record: Mcq, after: seq<Mcq>) {
    && |after| == |before| + (if IdIndex(before, record.id).Some? then 0 else 1)
    && IdIndex(after, record.id) == Some(if IdIndex(before, record.id).Some? then IdIndex(before, record.id).value else |before|)
    && after[IdIndex(after, record.id).value] == record
    && (forall i :: 0 <= i < |after| && SameSet(after[i], record) ==>
          after[i].tag == record.tag && after[i].description == record.description)
    && (forall i :: 0 <= i < |before| && IdIndex(before, record.id) != Some(i) ==>
          after[i] == if SameSet(before[i], record) then before[i].(tag := record.tag, description := record.description) else before[i])
  }

  /** Saves the form. The first failed check wins and nothing is written;
      otherwise the record is upserted by id and its set brought to the
      form's tag and description. `freshId` stands for the first eight hex
      digits of a random UUID. */
  function SaveMcq(store: Option<seq<Mcq>>, form: McqForm, freshId: string): (r: Result<seq<Mcq>, SaveError>)
    requires WellFormed(form)
    ensures r == Failure(EmptyQuestion) <==> Strip(form.question) == ""
    ensures r == Failure(TooFewOptions) <==> Strip(form.question) != "" && |FilledOptions(form.options)| < 2
    ensures r == Failure(NoCorrectOption) <==>
      Strip(form.question) != "" && |FilledOptions(form.options)| >= 2 && forall i :: 0 <= i < OptionBoxes ==> !form.flags[i] || Strip(form.options[i]) == ""
    ensures r == Failure(UnreadableSetNumber) <==>
      Strip(form.question) != "" && |FilledOptions(form.options)| >= 2
      && (exists i :: 0 <= i < OptionBoxes && form.flags[i] && Strip(form.options[i]) != "") && form.setNum.None?
    ensures r.Success? ==> form.setNum.Some?
    ensures r.Success? ==> SaveOutcome(AllMcqs(store), RecordOf(form, SaveId(form, freshId)), r.value)
  {
    ArticleEditor.StripTextGet(form.question);
    NoMarkedOptions(form.options, form.flags);
    if Strip(ArticleEditor.TextGet(form.question)) == "" then Failure(EmptyQuestion)
    else if |FilledOptions(form.options)| < 2 then Failure(TooFewOptions)
    else if MarkedOptions(form.options, form.flags) == [] then Failure(NoCorrectOption)
    else if form.setNum.None? then Failure(UnreadableSetNumber)
    else
      var record := RecordOf(form, SaveId(form, freshId));
      var before := AllMcqs(store);
      SaveOutcomeHolds(before, record);
      Success(SyncSet(UpsertById(before, record), form.setNum.value, Strip(form.category), Strip(form.tag), Strip(form.description)))
  }

  lemma SaveOutcomeHolds(before: seq<Mcq>, record: Mcq)
    requires record.setId.Some? && record.category.Some? && record.tag.Some? && record.description.Some?
    ensures SaveOutcome(before, record, SyncSet(UpsertById(before, record), record.setId.value,
      record.category.value, record.tag.value, record.description.value))
  {
    var upserted := UpsertById(before, record);
    var saved := SyncSet(upserted, record.setId.value, record.category.value, record.tag.value, record.description.value);
    SavedAtItsId(before, record, upserted, saved);
    SyncedSet(upserted, record, saved);
    OthersKept(before, record, upserted, saved);
  }

  lemma SavedAtItsId(before: seq<Mcq>, record: Mcq, upserted: seq<Mcq>, saved: seq<Mcq>)
    requires record.setId.Some? && record.category.Some? && record.tag.Some? && record.description.Some?
    requires upserted == UpsertById(before, record)
    requires saved == SyncSet(upserted, record.setId.value, record.category.value, record.tag.value, record.description.value)
    ensures |saved| == |before| + (if IdIndex(before, record.id).Some? then 0 else 1)
    ensures IdIndex(saved, record.id) == Some(if IdIndex(before, record.id).Some? then IdIndex(before, record.id).value else |before|)
    ensures saved[IdIndex(saved, record.id).value] == record
  {
    var k := if IdIndex(before, record.id).Some? then IdIndex(before, record.id).value else |before|;
    assert upserted[k] == record;
    assert InSet(record, record.setId.value, record.category.value);
    assert record.(tag := record.tag, description := record.description) == record;
    assert saved[k] == record;
    forall j | 0 <= j < k
      ensures saved[j].id != record.id
    {
      assert saved[j].id == upserted[j].id;
    }
    IdIndexIs(saved, record.id, k);
  }

  lemma IdIndexIs(mcqs: seq<Mcq>, id: string, k: nat)
    requires k < |mcqs| && mcqs[k].id == id
    requires forall j :: 0 <= j < k ==> mcqs[j].id != id
    ensures IdIndex(mcqs, id) == Some(k)
  {
    assert IdIndex(mcqs, id).Some?;
  }

  lemma SyncedSet(upserted: seq<Mcq>, record: Mcq, saved: seq<Mcq>)
    requires record.setId.Some? && record.category.Some? && record.tag.Some? && record.description.Some?
    requires saved == SyncSet(upserted, record.setId.value, record.category.value, record.tag.value, record.description.value)
    ensures forall i :: 0 <= i < |saved| && SameSet(saved[i], record) ==>
      saved[i].tag == record.tag && saved[i].description == record.description
  {
    forall i | 0 <= i < |saved| && SameSet(saved[i], record)
      ensures saved[i].tag == record.tag && saved[i].description == record.description
    {
      assert InSet(upserted[i], record.setId.value, record.category.value);
    }
  }

  lemma OthersKept(before: seq<Mcq>, record: Mcq, upserted: seq<Mcq>, saved: seq<Mcq>)
    requires record.setId.Some? && record.category.Some? && record.tag.Some? && record.description.Some?
    requires upserted == UpsertById(before, record)
    requires saved == SyncSet(upserted, record.setId.value, record.category.value, record.tag.value, record.description.value)
    ensures forall i :: 0 <= i < |before| && IdIndex(before, record.id) != Some(i) ==>
      saved[i] == if SameSet(before[i], record) then before[i].(tag := record.tag, description := record.description) else before[i]
  {
    forall i | 0 <= i < |before| && IdIndex(before, record.id) != Some(i)
      ensures upserted[i] == before[i]
    {
    }
  }

  /** A successful save stores a non-empty list of correct answers, each one
      a saved option, in option order. */
  lemma SavedAnswersAreOptions(store: Option<seq<Mcq>>, form: McqForm, freshId: string)
    requires WellFormed(form) && SaveMcq(store, form, freshId).Success?
    ensures var m := RecordOf(form, SaveId(form, freshId));
      && m.correct.CList? && |m.correct.answers| > 0 && |m.options| >= 2
      && IsSubsequence(m.correct.answers, m.options)
  {
    CheckedIsSubsequence(StripAll(form.options), form.flags);
  }

  // ---------------------------------------------------------------------------
  // Deleting
  // ---------------------------------------------------------------------------

  /** `[q for q in mcqs if q['id'] != id]` */
  function DeleteMcq(mcqs: seq<Mcq>, id: string): (r: seq<Mcq>)
    ensures forall m :: m in r <==> m in mcqs && m.id != id
    ensures |r| <= |mcqs|
  {
    if |mcqs| == 0 then []
    else (if mcqs[0].id == id then [] else [mcqs[0]]) + DeleteMcq(mcqs[1..], id)
  }

  /** Deleting distributes over concatenation, so relative order is kept. */
  lemma {:induction false} DeleteMcqKeepsOrder(xs: seq<Mcq>, ys: seq<Mcq>, id: string)
    ensures DeleteMcq(xs + ys, id) == DeleteMcq(xs, id) + DeleteMcq(ys, id)
    decreases |xs|
  {
    if |xs| == 0 {
      assert xs + ys == ys;
    } else {
      assert (xs + ys)[1..] == xs[1..] + ys;
      DeleteMcqKeepsOrder(xs[1..], ys, id);
    }
  }

  /** Deleting a question's id removes whatever an upsert of it left. */
  lemma DeleteUndoesUpsertById(mcqs: seq<Mcq>, m: Mcq)
    ensures DeleteMcq(UpsertById(mcqs, m), m.id) == DeleteMcq(mcqs, m.id)
  {
    match IdIndex(mcqs, m.id)
    case None =>
      DeleteMcqKeepsOrder(mcqs, [m], m.id);
      assert DeleteMcq([m], m.id) == [];
    case Some(i) =>
      var r := UpsertById(mcqs, m);
      assert mcqs == mcqs[..i] + [mcqs[i]] + mcqs[i + 1..];
      assert r == mcqs[..i] + [m] + mcqs[i + 1..];
      DeleteMcqKeepsOrder(mcqs[..i] + [mcqs[i]], mcqs[i + 1..], m.id);
      DeleteMcqKeepsOrder(mcqs[..i], [mcqs[i]], m.id);
      DeleteMcqKeepsOrder(mcqs[..i] + [m], mcqs[i + 1..], m.id);
      DeleteMcqKeepsOrder(mcqs[..i], [m], m.id);
      assert DeleteMcq([m], m.id) == [] && DeleteMcq([mcqs[i]], m.id) == [];
  }

  // ---------------------------------------------------------------------------
  // Editing: from a stored record back to the form
  // ---------------------------------------------------------------------------

  /** The stored answers as a list; a bare string is a one-answer list and a
      missing entry is no answer. */
  function CorrectList(c: CorrectField): seq<string> {
    match c
    case CMissing => []
    case CList(answers) => answers
    case CString(answer) => [answer]
  }

  const NoFlags: seq<bool> := [false, false, false, false, false]

  /** The option boxes after loading: the first five options, the remaining
      boxes cleared. */
  function EditOptionBoxes(options: seq<string>): (r: seq<string>)
    ensures |r| == OptionBoxes
    ensures forall k :: 0 <= k < OptionBoxes ==> r[k] == if k < |options| then options[k] else ""
  {
    seq(OptionBoxes, k requires 0 <= k < OptionBoxes => if k < |options| then options[k] else "")
  }

  /** Where the checkbox loop as written stops: the index of the checkbox
      that does not exist, and the boxes checked before it. */
  datatype FlagError = FlagError(index: nat, flags: seq<bool>)

  /** The checkbox loop as written: it walks every option, also those past
      the fifth box, and indexing a sixth checkbox raises `IndexError` with
      the earlier boxes already checked. */
  function ScanFlagsAsWritten(options: seq<string>, correct: seq<string>, i: nat, flags: seq<bool>): (r: Result<seq<bool>, FlagError>)
    requires |flags| == OptionBoxes && i <= |options|
    ensures r.Failure? <==> exists j :: i <= j < |options| && OptionBoxes <= j && options[j] in correct
    ensures r.Failure? ==> OptionBoxes <= r.error.index < |options| && options[r.error.index] in correct
    ensures r.Failure? ==> forall j :: i <= j < r.error.index && OptionBoxes <= j ==> options[j] !in correct
    ensures r.Success? ==> |r.value| == OptionBoxes && forall k :: 0 <= k < OptionBoxes ==>
      r.value[k] == (flags[k] || (i <= k < |options| && options[k] in correct))
    ensures r.Failure? ==> |r.error.flags| == OptionBoxes && forall k :: 0 <= k < OptionBoxes ==>
      r.error.flags[k] == (flags[k] || (i <= k < |options| && options[k] in correct))
    decreases |options| - i
  {
    if i == |options| then Success(flags)
    else if options[i] in correct then
      if i < OptionBoxes then ScanFlagsAsWritten(options, correct, i + 1, flags[i := true])
      else Failure(FlagError(i, flags))
    else ScanFlagsAsWritten(options, correct, i + 1, flags)
  }

  /** `edit_mcq`'s checkboxes as written: an `IndexError` at the first
      correct option past the fifth box. The exception comes after the text
      fields and option boxes are filled; what it skips is the status line. */
  function EditFlagsAsWritten(options: seq<string>, c: CorrectField): (r: Result<seq<bool>, FlagError>)
    ensures r.Failure? <==> exists j :: OptionBoxes <= j < |options| && options[j] in CorrectList(c)
    ensures r.Failure? ==> OptionBoxes <= r.error.index < |options| && options[r.error.index] in CorrectList(c)
  {
    if CorrectList(c) == [] then Success(NoFlags)
    else ScanFlagsAsWritten(options, CorrectList(c), 0, NoFlags)
  }

  /** The checkbox loop with the same bound as the option-box loop. */
  function ScanFlags(options: seq<string>, correct: seq<string>, i: nat, flags: seq<bool>): (r: seq<bool>)
    requires |flags| == OptionBoxes && i <= |options|
    ensures |r| == OptionBoxes
    ensures forall k :: 0 <= k < OptionBoxes ==> r[k] == (flags[k] || (i <= k < |options| && options[k] in correct))
    decreases |options| - i
  {
    if i == |options| then flags
    else if i < OptionBoxes && options[i] in correct then ScanFlags(options, correct, i + 1, flags[i := true])
    else ScanFlags(options, correct, i + 1, flags)
  }

  /** `edit_mcq`'s checkboxes, bounded to the five boxes: box `k` is checked
      exactly when option `k` is one of the stored answers. */
  function EditFlags(options: seq<string>, c: CorrectField): (r: seq<bool>)
    ensures |r| == OptionBoxes
    ensures forall k :: 0 <= k < OptionBoxes ==> r[k] == (k < |options| && options[k] in CorrectList(c))
  {
    if CorrectList(c) == [] then NoFlags else ScanFlags(options, CorrectList(c), 0, NoFlags)
  }

  /** The loop as written checks the same boxes as the bounded one, whether
      it gets through or stops at a sixth checkbox: the error leaves the form
      as the corrected loop fills it, without the status line. */
  lemma EditFlagsAgree(options: seq<string>, c: CorrectField)
    ensures EditFlagsAsWritten(options, c).Success? ==> EditFlagsAsWritten(options, c).value == EditFlags(options, c)
    ensures EditFlagsAsWritten(options, c).Failure? ==> EditFlagsAsWritten(options, c).error.flags == EditFlags(options, c)
  {
  }

  /** A question with six options whose sixth is the answer: the imported
      files can hold such questions, and loading one raises `IndexError` at
      the sixth checkbox with no box checked. */
  lemma SixthAnswerBreaksEdit()
    ensures EditFlagsAsWritten(["a", "b", "c", "d", "e", "f"], CList(["f"])) == Failure(FlagError(5, NoFlags))
  {
    var options := ["a", "b", "c", "d", "e", "f"];
    assert options[5] in ["f"];
    assert forall j :: 0 <= j < 5 ==> options[j] !in ["f"];
  }

  // ---------------------------------------------------------------------------
  // Edit, then save: the answers survive
  // ---------------------------------------------------------------------------

  /** The options of `o` that are among `c`, in the order of `o`. */
  function Chosen(o: seq<string>, c: seq<string>): (r: seq<string>) {
    if |o| == 0 then [] else (if o[0] in c then [o[0]] else []) + Chosen(o[1..], c)
  }

  lemma {:induction false} ChosenSameOn(o: seq<string>, c: seq<string>, c': seq<string>)
    requires forall y :: y in o ==> (y in c <==> y in c')
    ensures Chosen(o, c) == Chosen(o, c')
    decreases |o|
  {
    if |o| > 0 {
      ChosenSameOn(o[1..], c, c');
    }
  }

  /** Choosing from distinct options by a list that is a subsequence of them
      gives back that list. */
  lemma {:induction false} ChosenSubsequence(o: seq<string>, c: seq<string>)
    requires Distinct(o) && IsSubsequence(c, o)
    ensures Chosen(o, c) == c
    decreases |o|
  {
    if |o| > 0 {
      var x := o[0];
      assert x !in o[1..];
      if IsSubsequence(c, o[1..]) {
        SubsequenceMembers(c, o[1..]);
        ChosenSubsequence(o[1..], c);
      } else {
        assert c[0] == x && IsSubsequence(c[1..], o[1..]);
        assert c == [x] + c[1..];
        ChosenSameOn(o[1..], c, c[1..]);
        ChosenSubsequence(o[1..], c[1..]);
      }
    } else {
      assert |c| == 0;
    }
  }

  /** Already-stripped, non-empty options. */
  predicate CleanOptions(o: seq<string>) {
    forall k :: 0 <= k < |o| ==> o[k] != "" && Strip(o[k]) == o[k]
  }

  lemma {:induction false} NonEmptyAppend(a: seq<string>, b: seq<string>)
    ensures NonEmpty(a + b) == NonEmpty(a) + NonEmpty(b)
    decreases |a|
  {
    if |a| == 0 {
      assert a + b == b;
    } else {
      assert (a + b)[1..] == a[1..] + b;
      NonEmptyAppend(a[1..], b);
    }
  }

  lemma {:induction false} CheckedAppend(a: seq<string>, f: seq<bool>, b: seq<string>, g: seq<bool>)
    requires |a| == |f| && |b| == |g|
    ensures Checked(a + b, f + g) == Checked(a, f) + Checked(b, g)
    decreases |a|
  {
    if |a| == 0 {
      assert a + b == b && f + g == g;
    } else {
      assert (a + b)[1..] == a[1..] + b && (f + g)[1..] == f[1..] + g;
      CheckedAppend(a[1..], f[1..], b, g);
    }
  }

  lemma {:induction false} NonEmptyClean(o: seq<string>)
    requires "" !in o
    ensures NonEmpty(o) == o
    decreases |o|
  {
    if |o| > 0 {
      assert o[0] != "" && "" !in o[1..];
      NonEmptyClean(o[1..]);
      assert NonEmpty(o) == [o[0]] + NonEmpty(o[1..]);
      assert o == [o[0]] + o[1..];
    }
  }

  lemma CleanHasNoBlank(o: seq<string>)
    requires CleanOptions(o)
    ensures "" !in o
  {
    assert forall k :: 0 <= k < |o| ==> o[k] != "";
  }

  lemma {:induction false} CheckedClean(o: seq<string>, c: seq<string>, f: seq<bool>)
    requires "" !in o && |f| == |o|
    requires forall k :: 0 <= k < |o| ==> f[k] == (o[k] in c)
    ensures Checked(o, f) == Chosen(o, c)
    decreases |o|
  {
    if |o| > 0 {
      assert "" !in o[1..];
      CheckedClean(o[1..], c, f[1..]);
    }
  }

  lemma {:induction false} BlankBoxes(n: nat, f: seq<bool>)
    requires |f| == n
    ensures NonEmpty(seq(n, _ => "")) == [] && Checked(seq(n, _ => ""), f) == []
    decreases n
  {
    if n > 0 {
      assert seq(n, _ => "")[1..] == seq(n - 1, _ => "");
      BlankBoxes(n - 1, f[1..]);
    }
  }

  /** The boxes a load fills hold clean texts, which stripping leaves alone. */
  lemma StripEditBoxes(o: seq<string>)
    requires |o| <= OptionBoxes && CleanOptions(o)
    ensures StripAll(EditOptionBoxes(o)) == o + seq(OptionBoxes - |o|, _ => "")
  {
    assert Strip("") == "";
  }

  /** Loading a question into the form and saving it again keeps its options
      and its answers, when it has at most five distinct clean options and its
      answers are some of them in option order. */
  lemma EditThenSaveKeepsAnswers(m: Mcq)
    requires |m.options| <= OptionBoxes && CleanOptions(m.options) && Distinct(m.options)
    requires IsSubsequence(CorrectList(m.correct), m.options)
    ensures FilledOptions(EditOptionBoxes(m.options)) == m.options
    ensures MarkedOptions(EditOptionBoxes(m.options), EditFlags(m.options, m.correct)) == CorrectList(m.correct)
  {
    EditKeepsOptions(m.options);
    EditKeepsMarks(m.options, m.correct);
  }

  lemma EditKeepsOptions(o: seq<string>)
    requires |o| <= OptionBoxes && CleanOptions(o)
    ensures FilledOptions(EditOptionBoxes(o)) == o
  {
    var blank := seq(OptionBoxes - |o|, _ => "");
    StripEditBoxes(o);
    BlankBoxes(|blank|, seq(|blank|, _ => false));
    NonEmptyAppend(o, blank);
    CleanHasNoBlank(o);
    NonEmptyClean(o);
  }

  lemma EditKeepsMarks(o: seq<string>, correct: CorrectField)
    requires |o| <= OptionBoxes && CleanOptions(o) && Distinct(o)
    requires IsSubsequence(CorrectList(correct), o)
    ensures MarkedOptions(EditOptionBoxes(o), EditFlags(o, correct)) == CorrectList(correct)
  {
    var c := CorrectList(correct);
    var flags := EditFlags(o, correct);
    MarkedEditBoxes(o, flags);
    LoadedFlags(o, correct);
    CleanHasNoBlank(o);
    CheckedClean(o, c, flags[..|o|]);
    ChosenSubsequence(o, c);
  }

  /** The boxes of the loaded options are checked exactly for the answers. */
  lemma LoadedFlags(o: seq<string>, correct: CorrectField)
    requires |o| <= OptionBoxes
    ensures var f := EditFlags(o, correct)[..|o|];
      |f| == |o| && forall k :: 0 <= k < |o| ==> f[k] == (o[k] in CorrectList(correct))
  {
  }

  /** Only the loaded options can be marked: the cleared boxes hold nothing. */
  lemma MarkedEditBoxes(o: seq<string>, flags: seq<bool>)
    requires |o| <= OptionBoxes && CleanOptions(o) && |flags| == OptionBoxes
    ensures MarkedOptions(EditOptionBoxes(o), flags) == Checked(o, flags[..|o|])
  {
    StripEditBoxes(o);
    CheckedBeforeBlanks(o, seq(OptionBoxes - |o|, _ => ""), flags);
  }

  lemma CheckedBeforeBlanks(o: seq<string>, blank: seq<string>, flags: seq<bool>)
    requires blank == seq(|blank|, _ => "") && |flags| == |o| + |blank|
    ensures Checked(o + blank, flags) == Checked(o, flags[..|o|])
  {
    var head, tail := flags[..|o|], flags[|o|..];
    assert flags == head + tail;
    BlankBoxes(|blank|, tail);
    CheckedAppend(o, head, blank, tail);
    assert Checked(o, head) + [] == Checked(o, head);
  }

  // ---------------------------------------------------------------------------
  // The question list order
  // ---------------------------------------------------------------------------

  function CategoryKey(m: Mcq): string {
    if m.category.Some? then m.category.value else ""
  }

  function SetKey(m: Mcq): int {
    if m.setId.Some? then m.setId.value else 0
  }

  /** Category first, then set number; a missing field sorts as an empty
      category or as set 0. */
  predicate McqLe(a: Mcq, b: Mcq) {
    StrLt(CategoryKey(a), CategoryKey(b)) || (CategoryKey(a) == CategoryKey(b) && SetKey(a) <= SetKey(b))
  }

  lemma McqLeIsTotalPreorder()
    ensures TotalPreorder(McqLe)
  {
    forall a: Mcq, b: Mcq
      ensures McqLe(a, b) || McqLe(b, a)
    {
      StrLeTotalOrder(CategoryKey(a), CategoryKey(b), CategoryKey(b));
    }
    forall a: Mcq, b: Mcq, c: Mcq | McqLe(a, b) && McqLe(b, c)
      ensures McqLe(a, c)
    {
      StrLeTotalOrder(CategoryKey(a), CategoryKey(b), CategoryKey(c));
      StrLtAsymmetric(CategoryKey(a), CategoryKey(b));
      StrLtIrreflexive(CategoryKey(a));
    }
  }

  /** The question list: every record once per occurrence, by category then
      set number, records with equal keys in file order. */
  function McqListOrder(mcqs: seq<Mcq>): (r: seq<Mcq>)
    ensures multiset(r) == multiset(mcqs)
    ensures forall i, j :: 0 <= i < j < |r| ==>
      StrLt(CategoryKey(r[i]), CategoryKey(r[j])) || (CategoryKey(r[i]) == CategoryKey(r[j]) && SetKey(r[i]) <= SetKey(r[j]))
    ensures forall y :: Ties(r, McqLe, y) == Ties(mcqs, McqLe, y)
  {
    McqLeIsTotalPreorder();
    SortIsStable(mcqs, McqLe);
    Sort(mcqs, McqLe)
  }
}
