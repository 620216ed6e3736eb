/**
 * Item-wise tax details for invoices created before version 16 of the ERP:
 * the stored mapping is keyed by item code, and is spread back onto invoice
 * lines by giving each entry to the FIRST line with that item code.
 */
module TaxDetails {
  import opened Wrappers

  /** `{'rate': ..., 'amount': ...}`; both numbers are only ever copied. */
  datatype TaxRow = TaxRow(rate: real, amount: real)

  const ZeroRow := TaxRow(0.0, 0.0)

  /** The fields of an invoice line the reconciliation reads: its row name and item code. */
  datatype InvoiceLine = InvoiceLine(name: string, itemCode: string)

  /** One `item_code -> [rate, amount, ...]` entry of the stored mapping, in insertion order. */
  datatype LegacyEntry = LegacyEntry(itemCode: string, values: seq<real>)

  /** `values[index]` on a list too short for it raises `IndexError`. */
  datatype TaxError = IndexOutOfRange(itemCode: string, index: nat)

  /** The index of the first item satisfying `p`, if any. */
  function FirstIndex<T>(items: seq<T>, p: T -> bool): (r: Option<nat>)
    ensures r.Some? ==> r.value < |items| && p(items[r.value])
    ensures r.Some? ==> forall j :: 0 <= j < r.value ==> !p(items[j])
    ensures r.None? ==> forall j :: 0 <= j < |items| ==> !p(items[j])
  {
    if items == [] then None
    else if p(items[0]) then Some(0)
    else match FirstIndex(items[1..], p)
      case None => None
      case Some(k) => Some(k + 1)
  }

  /** `_find_first_or_default`: the first item satisfying `p`, or `default`. */
  method FindFirstOrDefault<T>(items: seq<T>, p: T -> bool, default: Option<T>) returns (r: Option<T>)
    ensures r == match FirstIndex(items, p) case Some(k) => Some(items[k]) case None => default
  {
    var k := 0;
    while k < |items|
      invariant 0 <= k <= |items|
      invariant forall j :: 0 <= j < k ==> !p(items[j])
    {
      if p(items[k]) {
        FirstIndexIsFirst(items, p, k);
        return Some(items[k]);
      }
      k := k + 1;
    }
    return default;
  }

  /** `FirstIndex` is pinned down by its contract: the first position where `p` holds. */
  lemma FirstIndexIsFirst<T>(items: seq<T>, p: T -> bool, k: nat)
    requires k < |items| && p(items[k])
    requires forall j :: 0 <= j < k ==> !p(items[j])
    ensures FirstIndex(items, p) == Some(k)
  {
  }

  /** The line predicate the reconciliation searches with: same item code. */
  function HasItemCode(code: string): (p: InvoiceLine -> bool)
    ensures forall l :: p(l) <==> l.itemCode == code
  {
    (l: InvoiceLine) => l.itemCode == code
  }

  /** The row names of the lines. */
  function Names(lines: seq<InvoiceLine>): (s: set<string>)
    ensures forall j :: 0 <= j < |lines| ==> lines[j].name in s
  {
    set l | l in lines :: l.name
  }

  /** The starting dictionary: one zero row per invoice line. */
  function ZeroRows(lines: seq<InvoiceLine>): (m: map<string, TaxRow>)
    ensures m.Keys == Names(lines)
    ensures forall n :: n in m ==> m[n] == ZeroRow
  {
    map n | n in Names(lines) :: ZeroRow
  }

  /** One iteration of the loop: the first line with the entry's item code gets `[rate, amount]`. */
  function ApplyEntry(m: map<string, TaxRow>, lines: seq<InvoiceLine>, e: LegacyEntry): Result<map<string, TaxRow>, TaxError>
  {
    match FirstIndex(lines, HasItemCode(e.itemCode))
    case None => Ok(m)
    case Some(k) =>
      if |e.values| < 1 then Err(IndexOutOfRange(e.itemCode, 0))
      else if |e.values| < 2 then Err(IndexOutOfRange(e.itemCode, 1))
      else Ok(m[lines[k].name := TaxRow(e.values[0], e.values[1])])
  }

  /** The dictionary after the loop has applied every legacy entry, in order. */
  function Reconcile(lines: seq<InvoiceLine>, details: seq<LegacyEntry>): (r: Result<map<string, TaxRow>, TaxError>)
    ensures r.Ok? ==> r.value.Keys == Names(lines)
    decreases |details|
  {
    if details == [] then Ok(ZeroRows(lines))
    else
      match Reconcile(lines, details[..|details| - 1])
      case Err(e) => Err(e)
      case Ok(m) => ApplyEntry(m, lines, details[|details| - 1])
  }

  /** The legacy branch of `get_item_wise_tax_details`. */
  method LegacyItemWiseTaxDetails(lines: seq<InvoiceLine>, details: seq<LegacyEntry>)
    returns (r: Result<map<string, TaxRow>, TaxError>)
    ensures r == Reconcile(lines, details)
    ensures r.Ok? ==> r.value.Keys == Names(lines)
  {
    var result := ZeroRows(lines);
    var k := 0;
    while k < |details|
      invariant 0 <= k <= |details|
      invariant Reconcile(lines, details[..k]) == Ok(result)
      invariant result.Keys == Names(lines)
    {
      var entry := details[k];
      ReconcileStep(lines, details, k, result);
      var row := FindFirstOrDefault(lines, HasItemCode(entry.itemCode), None);
      if row.Some? {
        if |entry.values| < 1 {
          r := Err(IndexOutOfRange(entry.itemCode, 0));
          ReconcileErrorSticks(lines, details, k + 1);
          return;
        }
        if |entry.values| < 2 {
          r := Err(IndexOutOfRange(entry.itemCode, 1));
          ReconcileErrorSticks(lines, details, k + 1);
          return;
        }
        result := result[row.value.name := TaxRow(entry.values[0], entry.values[1])];
      }
      k := k + 1;
    }
    assert details[..k] == details;
    return Ok(result);
  }

  /** One more entry: the reconciliation of a longer prefix applies that entry. */
  lemma ReconcileStep(lines: seq<InvoiceLine>, details: seq<LegacyEntry>, k: nat, m: map<string, TaxRow>)
    requires k < |details| && Reconcile(lines, details[..k]) == Ok(m)
    ensures Reconcile(lines, details[..k + 1]) == ApplyEntry(m, lines, details[k])
  {
    assert details[..k + 1][..k] == details[..k];
  }

  /** Once an entry raises, the whole reconciliation raises the same error. */
  lemma {:induction false} ReconcileErrorSticks(lines: seq<InvoiceLine>, details: seq<LegacyEntry>, k: nat)
    requires k <= |details|
    requires Reconcile(lines, details[..k]).Err?
    ensures Reconcile(lines, details) == Reconcile(lines, details[..k])
    decreases |details|
  {
    if k < |details| {
      var init := details[..|details| - 1];
      assert init[..k] == details[..k];
      ReconcileErrorSticks(lines, init, k);
    } else {
      assert details[..k] == details;
    }
  }

  /** Line `j` is the first line carrying the item code of entry `k`, so entry `k` writes to it. */
  predicate Owns(lines: seq<InvoiceLine>, details: seq<LegacyEntry>, k: int, j: int) {
    0 <= k < |details| && FirstIndex(lines, HasItemCode(details[k].itemCode)) == Some(j)
  }

  /** An entry that reaches a line has both a rate and an amount. */
  predicate WellFormed(lines: seq<InvoiceLine>, e: LegacyEntry) {
    FirstIndex(lines, HasItemCode(e.itemCode)).Some? ==> |e.values| >= 2
  }

  /** The keys of a JSON object are distinct. */
  predicate DistinctCodes(details: seq<LegacyEntry>) {
    forall a, b :: 0 <= a < b < |details| ==> details[a].itemCode != details[b].itemCode
  }

  /** Row names of an invoice's lines are distinct. */
  predicate DistinctNames(lines: seq<InvoiceLine>) {
    forall a, b :: 0 <= a < b < |lines| ==> lines[a].name != lines[b].name
  }

  /**
   * The reconciliation raises exactly when some entry whose item code is on the
   * invoice has fewer than two numbers; entries matching no line are never indexed.
   */
  lemma {:induction false} ReconcileFailsIff(lines: seq<InvoiceLine>, details: seq<LegacyEntry>)
    ensures Reconcile(lines, details).Ok? <==> forall k :: 0 <= k < |details| ==> WellFormed(lines, details[k])
    decreases |details|
  {
    if details != [] {
      var n := |details|;
      var init := details[..n - 1];
      ReconcileFailsIff(lines, init);
      assert forall k :: 0 <= k < n - 1 ==> init[k] == details[k];
      if Reconcile(lines, init).Ok? {
        ApplyEntryOk(Reconcile(lines, init).value, lines, details[n - 1]);
      }
    }
  }

  /** One entry raises exactly when it reaches a line and has fewer than two numbers. */
  lemma ApplyEntryOk(m: map<string, TaxRow>, lines: seq<InvoiceLine>, e: LegacyEntry)
    ensures ApplyEntry(m, lines, e).Ok? <==> WellFormed(lines, e)
  {
  }

  /** A successful reconciliation is the last entry applied to the successful reconciliation of the others. */
  lemma ReconcileLast(lines: seq<InvoiceLine>, details: seq<LegacyEntry>)
    requires details != [] && Reconcile(lines, details).Ok?
    ensures Reconcile(lines, details[..|details| - 1]).Ok?
    ensures Reconcile(lines, details)
         == ApplyEntry(Reconcile(lines, details[..|details| - 1]).value, lines, details[|details| - 1])
  {
  }

  /** What one applied entry leaves under a given row name. */
  lemma ApplyEntryAt(m: map<string, TaxRow>, lines: seq<InvoiceLine>, e: LegacyEntry, name: string)
    requires ApplyEntry(m, lines, e).Ok? && name in m
    ensures var f := FirstIndex(lines, HasItemCode(e.itemCode));
      ApplyEntry(m, lines, e).value[name]
        == if f.Some? && lines[f.value].name == name then TaxRow(e.values[0], e.values[1]) else m[name]
  {
  }

  /** An entry whose first matching line is not line `j` leaves line `j`'s row alone. */
  lemma ApplyEntryKeeps(m: map<string, TaxRow>, lines: seq<InvoiceLine>, e: LegacyEntry, j: nat)
    requires DistinctNames(lines)
    requires j < |lines| && lines[j].name in m
    requires FirstIndex(lines, HasItemCode(e.itemCode)) != Some(j)
    requires ApplyEntry(m, lines, e).Ok?
    ensures ApplyEntry(m, lines, e).value[lines[j].name] == m[lines[j].name]
  {
    ApplyEntryAt(m, lines, e, lines[j].name);
    var f := FirstIndex(lines, HasItemCode(e.itemCode));
    if f.Some? {
      assert f.value != j;
      assert lines[f.value].name != lines[j].name;
    }
  }

  /** An entry whose first matching line is line `j` writes its rate and amount there. */
  lemma ApplyEntryWrites(m: map<string, TaxRow>, lines: seq<InvoiceLine>, e: LegacyEntry, j: nat)
    requires j < |lines| && lines[j].name in m
    requires FirstIndex(lines, HasItemCode(e.itemCode)) == Some(j)
    requires ApplyEntry(m, lines, e).Ok?
    ensures |e.values| >= 2
    ensures ApplyEntry(m, lines, e).value[lines[j].name] == TaxRow(e.values[0], e.values[1])
  {
  }

  /**
   * The first line carrying an entry's item code holds that entry's rate and
   * amount once the loop is done.
   */
  lemma {:induction false} ReconcileOwnedRow(lines: seq<InvoiceLine>, details: seq<LegacyEntry>, k: nat, j: nat)
    requires DistinctNames(lines) && DistinctCodes(details)
    requires Reconcile(lines, details).Ok?
    requires Owns(lines, details, k, j)
    ensures j < |lines| && |details[k].values| >= 2
    ensures Reconcile(lines, details).value[lines[j].name] == TaxRow(details[k].values[0], details[k].values[1])
    decreases |details|
  {
    var n := |details|;
    var init := details[..n - 1];
    var last := details[n - 1];
    ReconcileLast(lines, details);
    var m0 := Reconcile(lines, init).value;
    assert lines[j].name in m0;
    if k < n - 1 {
      assert init[k] == details[k];
      assert Owns(lines, init, k, j);
      ReconcileOwnedRow(lines, init, k, j);
      assert details[k].itemCode != last.itemCode;
      assert lines[j].itemCode == details[k].itemCode;
      ApplyEntryKeeps(m0, lines, last, j);
    } else {
      ApplyEntryWrites(m0, lines, last, j);
    }
  }

  /**
   * A line that is not the first line for any entry's item code (a later line
   * with a repeated code, or a code with no entry) keeps its zero row.
   */
  lemma {:induction false} ReconcileUnownedRow(lines: seq<InvoiceLine>, details: seq<LegacyEntry>, j: nat)
    requires DistinctNames(lines)
    requires Reconcile(lines, details).Ok?
    requires j < |lines|
    requires forall k :: !Owns(lines, details, k, j)
    ensures Reconcile(lines, details).value[lines[j].name] == ZeroRow
    decreases |details|
  {
    if details != [] {
      var n := |details|;
      var init := details[..n - 1];
      var last := details[n - 1];
      ReconcileLast(lines, details);
      forall k ensures !Owns(lines, init, k, j) {
        if 0 <= k < n - 1 {
          assert init[k] == details[k];
          assert !Owns(lines, details, k, j);
        }
      }
      ReconcileUnownedRow(lines, init, j);
      var m0 := Reconcile(lines, init).value;
      assert lines[j].name in m0;
      assert !Owns(lines, details, n - 1, j);
      ApplyEntryKeeps(m0, lines, last, j);
    }
  }

  /** Two lines with the same item code: only the first receives the stored rate and amount. */
  lemma RepeatedItemCodeExample()
    ensures var lines := [InvoiceLine("row1", "A"), InvoiceLine("row2", "A")];
      Reconcile(lines, [LegacyEntry("A", [0.15, 10.0])])
        == Ok(map["row1" := TaxRow(0.15, 10.0), "row2" := ZeroRow])
  {
    var lines := [InvoiceLine("row1", "A"), InvoiceLine("row2", "A")];
    var details := [LegacyEntry("A", [0.15, 10.0])];
    assert FirstIndex(lines, HasItemCode("A")) == Some(0);
    assert Names(lines) == {"row1", "row2"};
    assert ZeroRows(lines) == map["row1" := ZeroRow, "row2" := ZeroRow];
    assert details[..0] == [];
    assert Reconcile(lines, details) == ApplyEntry(ZeroRows(lines), lines, details[0]);
    assert ApplyEntry(ZeroRows(lines), lines, details[0]) == Ok(ZeroRows(lines)["row1" := TaxRow(0.15, 10.0)]);
    assert ZeroRows(lines)["row1" := TaxRow(0.15, 10.0)] == map["row1" := TaxRow(0.15, 10.0), "row2" := ZeroRow];
  }
}
