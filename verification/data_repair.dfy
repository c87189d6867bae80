/**
 * The one-off repair of the questions file: records whose tag and category
 * were written the wrong way round are swapped back, and a tag that reads
 * SALESFORCE in any letter case is written in upper case.
 */
module DataRepair {
  import opened Wrappers
  import opened Strings
  import opened McqEditor

  const Salesforce := "SALESFORCE"

  /** `item.get(key, '')`: a missing field reads as empty text. */
  function FieldText(f: Option<string>): string {
    if f.Some? then f.value else ""
  }

  /** The record counts as swapped: its stripped tag is not SALESFORCE in any
      letter case. A record without a tag is always swapped. */
  predicate NeedsSwap(m: Mcq) {
    Upper(Strip(FieldText(m.tag))) != Salesforce
  }

  /** `a` and `b` agree on every field but the tag and the category. */
  predicate OnlyTagAndCategoryDiffer(a: Mcq, b: Mcq) {
    && a.id == b.id && a.setId == b.setId && a.description == b.description
    && a.question == b.question && a.imageUrl == b.imageUrl && a.options == b.options
    && a.correct == b.correct && a.explanation == b.explanation
  }

  /** One pass of the loop body over one record: only the tag and the
      category can change, and the record always ends up with a tag. */
  function RepairItem(m: Mcq): (r: Mcq)
    ensures OnlyTagAndCategoryDiffer(m, r)
    ensures r.tag.Some?
  {
    var t, c := Strip(FieldText(m.tag)), Strip(FieldText(m.category));
    var swapped := if Upper(t) != Salesforce then m.(tag := Some(c), category := Some(t)) else m;
    if Upper(FieldText(swapped.tag)) == Salesforce then swapped.(tag := Some(Salesforce))
    else swapped
  }

  /** A swapped record takes its stripped tag as category and its stripped
      category as tag, the tag upper-cased when it reads SALESFORCE ignoring
      case; any other record keeps its category, and its tag too unless that
      tag reads SALESFORCE ignoring case, when it is written in upper case. */
  lemma RepairMovesFields(m: Mcq)
    ensures var r, c := RepairItem(m), Strip(FieldText(m.category));
      && (NeedsSwap(m) ==> r.category == Some(Strip(FieldText(m.tag))))
      && (NeedsSwap(m) ==> r.tag == Some(if Upper(c) == Salesforce then Salesforce else c))
      && (!NeedsSwap(m) ==> r.category == m.category)
      && (!NeedsSwap(m) ==> r.tag == if Upper(FieldText(m.tag)) == Salesforce then Some(Salesforce) else m.tag)
      && (Upper(FieldText(r.tag)) == Salesforce ==> r.tag == Some(Salesforce))
  {
    UpperSalesforce();
  }

  lemma UpperSalesforce()
    ensures Upper(Salesforce) == Salesforce
  {
    forall i | 0 <= i < |Salesforce|
      ensures Upper(Salesforce)[i] == Salesforce[i]
    {
    }
  }

  lemma StripSalesforce()
    ensures Strip(Salesforce) == Salesforce
  {
    StripTrimmed(Salesforce);
  }

  /** For each record, whether the repair swaps it. */
  function Swaps(items: seq<Mcq>): (r: seq<bool>)
    ensures |r| == |items|
  {
    seq(|items|, i requires 0 <= i < |items| => NeedsSwap(items[i]))
  }

  /** The positions below `n` whose flag is set. */
  function Marked(flags: seq<bool>, n: nat): (r: set<nat>)
    requires n <= |flags|
    ensures forall i: nat :: i in r <==> i < n && flags[i]
  {
    set i: nat | i < n && flags[i]
  }

  lemma MarkedStep(flags: seq<bool>, k: nat)
    requires k < |flags|
    ensures |Marked(flags, k + 1)| == |Marked(flags, k)| + if flags[k] then 1 else 0
  {
    if flags[k] {
      assert Marked(flags, k + 1) == Marked(flags, k) + {k};
    } else {
      assert Marked(flags, k + 1) == Marked(flags, k);
    }
  }

  /** `fix_swapped_fields` on the loaded list: every record repaired in place,
      in order, and the number of records swapped. */
  method RepairAll(items: seq<Mcq>) returns (out: seq<Mcq>, corrected: nat)
    ensures |out| == |items|
    ensures forall i :: 0 <= i < |items| ==> out[i] == RepairItem(items[i])
    ensures corrected == |Marked(Swaps(items), |items|)|
  {
    out := seq(|items|, i requires 0 <= i < |items| => RepairItem(items[i]));
    corrected := CountMarked(Swaps(items));
  }

  /** The counting half of the loop: one more for every set flag. */
  method CountMarked(flags: seq<bool>) returns (n: nat)
    ensures n == |Marked(flags, |flags|)|
  {
    n := 0;
    var k := 0;
    while k < |flags|
      invariant 0 <= k <= |flags|
      invariant n == |Marked(flags, k)|
    {
      MarkedStep(flags, k);
      if flags[k] {
        n := n + 1;
      }
      k := k + 1;
    }
  }

  /** The whole script: a missing file is left alone; otherwise the repaired
      list is written back and the count reported. */
  method FixSwappedFields(file: Option<seq<Mcq>>) returns (r: Option<(seq<Mcq>, nat)>)
    ensures file.None? <==> r.None?
    ensures r.Some? ==> |r.value.0| == |file.value|
                        && (forall i :: 0 <= i < |file.value| ==> r.value.0[i] == RepairItem(file.value[i]))
    ensures r.Some? ==> (r.value.1 == 0 <==> forall i :: 0 <= i < |file.value| ==> !NeedsSwap(file.value[i]))
    ensures r.Some? ==> r.value.1 == |Marked(Swaps(file.value), |file.value|)|
  {
    if file.None? {
      return None;
    }
    var out, corrected := RepairAll(file.value);
    if corrected == 0 {
      forall i | 0 <= i < |file.value|
        ensures !NeedsSwap(file.value[i])
      {
        assert i !in Marked(Swaps(file.value), |file.value|);
      }
    } else {
      var i :| i in Marked(Swaps(file.value), |file.value|);
    }
    r := Some((out, corrected));
  }

  /** A record whose tag ends up reading SALESFORCE is left exactly as it is
      by a second run. */
  lemma SalesforceRecordsAreStable(m: Mcq)
    requires Upper(FieldText(RepairItem(m).tag)) == Salesforce
    ensures RepairItem(RepairItem(m)) == RepairItem(m)
  {
    StripSalesforce();
    UpperSalesforce();
  }

  /** The repair is not idempotent: running it a second time swaps every
      other record back, leaving its original tag and category stripped. */
  lemma SecondRunSwapsBack(m: Mcq)
    requires NeedsSwap(m) && Upper(Strip(FieldText(m.category))) != Salesforce
    ensures RepairItem(RepairItem(m))
         == m.(tag := Some(Strip(FieldText(m.tag))), category := Some(Strip(FieldText(m.category))))
  {
    var t, c := Strip(FieldText(m.tag)), Strip(FieldText(m.category));
    StripIdempotent(FieldText(m.tag));
    StripIdempotent(FieldText(m.category));
    RepairMovesFields(m);
    var once := RepairItem(m);
    assert once.tag == Some(c) && once.category == Some(t) by {
      if Upper(c) == Salesforce {
        assert false;
      }
    }
  }

  /** A tag with whitespace around `Salesforce` is neither swapped nor
      standardised: the check strips, the standardisation does not. */
  lemma PaddedTagKeptAsWritten()
    ensures var m := Mcq("q", None, Some("Cloud"), Some(" Salesforce"), None, "", "", [], CList([]), "");
      !NeedsSwap(m) && RepairItem(m) == m
  {
    PaddedTagStrips();
    MixedCaseUpper();
    assert Upper(" Salesforce")[0] == ' ';
  }

  lemma PaddedTagStrips()
    ensures Strip(" Salesforce") == "Salesforce"
  {
    PaddedStrip(" ", "Salesforce");
    assert " " + "Salesforce" == " Salesforce";
  }

  lemma PaddedStrip(pad: string, word: string)
    requires AllSpace(pad) && |word| > 0 && !IsSpace(word[0]) && !IsSpace(word[|word| - 1])
    ensures Strip(pad + word) == word
  {
    StripIgnoresSurroundingSpace(pad, word, "");
    assert pad + word + "" == pad + word;
    StripTrimmed(word);
  }

  lemma MixedCaseUpper()
    ensures Upper("Salesforce") == Salesforce
  {
    forall i | 0 <= i < |Salesforce|
      ensures Upper("Salesforce")[i] == Salesforce[i]
    {
    }
  }
}
