/**
 * Choosing the seller's and the buyer's "other ID" (and its label) from the
 * `Additional Seller IDs` / `Additional Buyer IDs` tables, walking a fixed
 * priority list of type codes.
 */
module OtherIds {
  import opened Wrappers

  /** One `Additional ... IDs` row: its `value` and `type_name` fields, either possibly null. */
  datatype IdRow = IdRow(value: Option<string>, typeName: Option<string>)

  /** The table, keyed by (parent, type_code). */
  type IdTable = map<(string, string), IdRow>

  const DefaultLabel: string := "Commercial Registration Number"

  const SellerCodes: seq<string> := ["CRN", "MOM", "MLS", "700", "SAG", "OTH"]

  const BuyerCodes: seq<string> := ["TIN", "CRN", "MOM", "MLS", "700", "SAG", "NAT", "GCC", "IQA", "PAS", "OTH"]

  /** `frappe.get_value(table, {parent, type_code}, 'value')`: null when there is no such row. */
  function LookupValue(t: IdTable, parent: string, code: string): (r: Option<string>)
    ensures (parent, code) !in t ==> r.None?
  {
    if (parent, code) in t then t[(parent, code)].value else None
  }

  /** `frappe.get_value(table, {parent, type_code}, 'type_name')`. */
  function LookupTypeName(t: IdTable, parent: string, code: string): (r: Option<string>)
    ensures (parent, code) !in t ==> r.None?
  {
    if (parent, code) in t then t[(parent, code)].typeName else None
  }

  /** Python's truth value of an optional string: present and non-empty. */
  predicate Truthy(v: Option<string>) {
    v.Some? && v.value != ""
  }

  /** The characters Python's `str.isspace()` accepts (and `str.strip()` removes). */
  predicate IsSpace(c: char) {
    var n := c as int;
    (0x09 <= n <= 0x0D) || (0x1C <= n <= 0x20) || n == 0x85 || n == 0xA0 || n == 0x1680
    || (0x2000 <= n <= 0x200A) || n == 0x2028 || n == 0x2029 || n == 0x202F || n == 0x205F || n == 0x3000
  }

  /** `s.lstrip()`. */
  function StripStart(s: string): (r: string)
    ensures |r| <= |s| && r == s[|s| - |r|..]
    ensures forall i :: 0 <= i < |s| - |r| ==> IsSpace(s[i])
    ensures r != [] ==> !IsSpace(r[0])
  {
    if s != [] && IsSpace(s[0]) then StripStart(s[1..]) else s
  }

  /** `s.rstrip()`. */
  function StripEnd(s: string): (r: string)
    ensures |r| <= |s| && r == s[..|r|]
    ensures forall i :: |r| <= i < |s| ==> IsSpace(s[i])
    ensures r != [] ==> !IsSpace(r[|r| - 1])
  {
    if s != [] && IsSpace(s[|s| - 1]) then StripEnd(s[..|s| - 1]) else s
  }

  /** The length of the leading whitespace run of `s`, which `lstrip` removes. */
  function Lead(s: string): (n: nat)
    ensures n <= |s|
  {
    |s| - |StripStart(s)|
  }

  /**
   * `r` is `s` with its leading and trailing whitespace cut off: a slice of `s`
   * starting right after the leading whitespace run, with only whitespace after it.
   */
  predicate CutFrom(s: string, r: string) {
    Lead(s) + |r| <= |s| && r == s[Lead(s)..Lead(s) + |r|]
    && (forall i :: 0 <= i < Lead(s) ==> IsSpace(s[i]))
    && (forall i :: Lead(s) + |r| <= i < |s| ==> IsSpace(s[i]))
  }

  /** `s.strip()`: the text left between leading and trailing whitespace. */
  function Strip(s: string): (r: string)
    ensures |r| <= |s|
    ensures r != [] ==> !IsSpace(r[0]) && !IsSpace(r[|r| - 1])
    ensures r == [] <==> forall i :: 0 <= i < |s| ==> IsSpace(s[i])
    ensures CutFrom(s, r)
  {
    var left := StripStart(s);
    var r := StripEnd(left);
    StripFacts(s, left, r);
    r
  }

  /** What `Strip` promises, from the promises of its two halves. */
  lemma StripFacts(s: string, left: string, r: string)
    requires left == StripStart(s) && r == StripEnd(left)
    ensures |r| <= |s|
    ensures r != [] ==> !IsSpace(r[0]) && !IsSpace(r[|r| - 1])
    ensures r == [] <==> forall i :: 0 <= i < |s| ==> IsSpace(s[i])
    ensures CutFrom(s, r)
  {
    StripSlice(s, Lead(s), left, r);
  }

  /**
   * The two halves as slices: `left` is `s` after its first `a` characters, all
   * whitespace, and `r` is a prefix of `left` followed only by whitespace.
   */
  lemma StripSlice(s: string, a: int, left: string, r: string)
    requires 0 <= a <= |s| && left == s[a..]
    requires forall i :: 0 <= i < a ==> IsSpace(s[i])
    requires left != [] ==> !IsSpace(left[0])
    requires |r| <= |left| && r == left[..|r|]
    requires forall i :: |r| <= i < |left| ==> IsSpace(left[i])
    requires r != [] ==> !IsSpace(r[|r| - 1])
    ensures r != [] ==> !IsSpace(r[0])
    ensures r == [] <==> forall i :: 0 <= i < |s| ==> IsSpace(s[i])
    ensures a + |r| <= |s| && r == s[a..a + |r|]
    ensures forall i :: a + |r| <= i < |s| ==> IsSpace(s[i])
  {
    forall i | a + |r| <= i < |s|
      ensures IsSpace(s[i])
    {
      assert s[i] == left[i - a];
    }
    if r != [] {
      assert r[0] == left[0];
      assert s[a] == left[0];
    }
  }

  /** Text with no whitespace at either end is left as it is. */
  lemma StripUnpadded(s: string)
    requires s != [] ==> !IsSpace(s[0]) && !IsSpace(s[|s| - 1])
    ensures Strip(s) == s
  {
    assert StripStart(s) == s;
    assert StripEnd(s) == s;
  }

  /** Stripping twice is stripping once. */
  lemma StripIdempotent(s: string)
    ensures Strip(Strip(s)) == Strip(s)
  {
    StripUnpadded(Strip(s));
  }

  /** `v.strip() or None if isinstance(v, str) else v`. */
  function Clean(v: Option<string>): (r: Option<string>)
    ensures r.None? <==> v.None? || forall i :: 0 <= i < |v.value| ==> IsSpace(v.value[i])
    ensures r.Some? ==> r.value != [] && r.value == Strip(v.value)
  {
    match v
    case None => None
    case Some(s) => var t := Strip(s); if t == "" then None else Some(t)
  }

  /** The value a candidate type code yields, after stripping. */
  function Candidate(t: IdTable, parent: string, code: string): Option<string> {
    Clean(LookupValue(t, parent, code))
  }

  /** The loop stops at a value that is truthy and is not the literal text `CRN`. */
  predicate Stops(v: Option<string>) {
    Truthy(v) && v != Some("CRN")
  }

  /**
   * The loop over the priority list, as (value, type_name): it stops at the first
   * candidate that `Stops`; otherwise the value is whatever the last candidate
   * produced (`current` if the list is empty) and no name was read.
   */
  function Scan(t: IdTable, parent: string, codes: seq<string>, current: Option<string>): (r: (Option<string>, Option<string>))
    decreases |codes|
  {
    if codes == [] then (current, None)
    else
      var v := Candidate(t, parent, codes[0]);
      if Stops(v) then (v, LookupTypeName(t, parent, codes[0]))
      else Scan(t, parent, codes[1..], v)
  }

  /** `type_name or 'Commercial Registration Number'`. */
  function LabelOr(name: Option<string>): (text: string)
    ensures text != ""
    ensures Truthy(name) ==> text == name.value
  {
    if Truthy(name) then name.value else DefaultLabel
  }

  /** The scan returns the first candidate that stops the loop, with its own stored name. */
  lemma {:induction false} ScanStopsAtFirst(t: IdTable, parent: string, codes: seq<string>, current: Option<string>, i: nat)
    requires i < |codes| && Stops(Candidate(t, parent, codes[i]))
    requires forall j :: 0 <= j < i ==> !Stops(Candidate(t, parent, codes[j]))
    ensures Scan(t, parent, codes, current) == (Candidate(t, parent, codes[i]), LookupTypeName(t, parent, codes[i]))
    decreases i
  {
    if i > 0 {
      var rest := codes[1..];
      ScanSkip(t, parent, codes, current);
      assert forall j :: 0 <= j < |rest| ==> rest[j] == codes[j + 1];
      ScanStopsAtFirst(t, parent, rest, Candidate(t, parent, codes[0]), i - 1);
    }
  }

  /** A candidate that does not stop the loop becomes the value carried to the rest of the list. */
  lemma ScanSkip(t: IdTable, parent: string, codes: seq<string>, current: Option<string>)
    requires codes != [] && !Stops(Candidate(t, parent, codes[0]))
    ensures Scan(t, parent, codes, current) == Scan(t, parent, codes[1..], Candidate(t, parent, codes[0]))
  {
  }

  /** When nothing stops the loop, the value left over is the last candidate's and no name is read. */
  lemma {:induction false} ScanRunsOut(t: IdTable, parent: string, codes: seq<string>, current: Option<string>)
    requires forall j :: 0 <= j < |codes| ==> !Stops(Candidate(t, parent, codes[j]))
    ensures Scan(t, parent, codes, current) ==
      (if codes == [] then current else Candidate(t, parent, codes[|codes| - 1]), None)
    decreases |codes|
  {
    if codes != [] {
      var rest := codes[1..];
      ScanSkip(t, parent, codes, current);
      assert forall j :: 0 <= j < |rest| ==> rest[j] == codes[j + 1];
      ScanRunsOut(t, parent, rest, Candidate(t, parent, codes[0]));
      if rest != [] {
        assert rest[|rest| - 1] == codes[|codes| - 1];
      }
    }
  }

  /** The loop of both resolvers: walks `codes`, breaking at the first candidate that stops it. */
  method ScanOtherIds(t: IdTable, parent: string, codes: seq<string>, initial: Option<string>)
    returns (id: Option<string>, name: Option<string>)
    ensures (id, name) == Scan(t, parent, codes, initial)
  {
    id, name := initial, None;
    var i := 0;
    while i < |codes|
      invariant 0 <= i <= |codes|
      invariant name.None?
      invariant Scan(t, parent, codes, initial) == Scan(t, parent, codes[i..], id)
    {
      assert codes[i..][1..] == codes[i + 1..];
      id := Candidate(t, parent, codes[i]);
      if Stops(id) {
        name := LookupTypeName(t, parent, codes[i]);
        break;
      }
      i := i + 1;
    }
  }

  /** Branch configuration is on, the invoice has a branch, and that branch has a truthy `CRN` value. */
  predicate BranchOverride(t: IdTable, branchConfiguration: bool, branch: Option<string>) {
    branchConfiguration && Truthy(branch) && Truthy(LookupValue(t, branch.value, "CRN"))
  }

  /**
   * `_get_seller_other_id`, as (value, label): a truthy branch-level `CRN` value
   * is returned as stored; otherwise the settings' IDs are scanned. This is the
   * specification of `GetSellerOtherId`.
   */
  function SellerOtherId(t: IdTable, settingsName: string, branchConfiguration: bool, branch: Option<string>): (r: (Option<string>, string))
    ensures BranchOverride(t, branchConfiguration, branch) ==> r == (LookupValue(t, branch.value, "CRN"), DefaultLabel)
    ensures r.1 != ""
  {
    var branchValue := if branchConfiguration && Truthy(branch) then LookupValue(t, branch.value, "CRN") else None;
    if Truthy(branchValue) then (branchValue, DefaultLabel)
    else
      var (id, name) := Scan(t, settingsName, SellerCodes, branchValue);
      (id, LabelOr(name))
  }

  /** `_get_buyer_other_id`, as (value, label): the specification of `GetBuyerOtherId`. */
  function BuyerOtherId(t: IdTable, customer: string): (r: (Option<string>, string))
    ensures r.1 != ""
  {
    var (id, name) := Scan(t, customer, BuyerCodes, None);
    (id, LabelOr(name))
  }

  /**
   * `_get_seller_other_id` in its loop form: the branch lookup, then the
   * `ScanOtherIds` loop; `SellerOtherId` is its specification.
   */
  method GetSellerOtherId(t: IdTable, settingsName: string, branchConfiguration: bool, branch: Option<string>)
    returns (id: Option<string>, idName: string)
    ensures (id, idName) == SellerOtherId(t, settingsName, branchConfiguration, branch)
  {
    id := None;
    var name: Option<string> := None;
    if branchConfiguration && Truthy(branch) {
      id := LookupValue(t, branch.value, "CRN");
    }
    if !Truthy(id) {
      id, name := ScanOtherIds(t, settingsName, SellerCodes, id);
    }
    idName := LabelOr(name);
  }

  /** `_get_buyer_other_id` in its loop form; `BuyerOtherId` is its specification. */
  method GetBuyerOtherId(t: IdTable, customer: string) returns (id: Option<string>, idName: string)
    ensures (id, idName) == BuyerOtherId(t, customer)
  {
    var name;
    id, name := ScanOtherIds(t, customer, BuyerCodes, None);
    idName := LabelOr(name);
  }

  /**
   * Without a branch override, the seller's ID is the first settings-level
   * candidate in `CRN, MOM, MLS, 700, SAG, OTH` order that is non-blank and not
   * the text `CRN`, labelled with that row's own `type_name` (or the default).
   */
  lemma SellerPicksFirstStoppingId(t: IdTable, settingsName: string, branchConfiguration: bool, branch: Option<string>, i: nat)
    requires !BranchOverride(t, branchConfiguration, branch)
    requires i < |SellerCodes| && Stops(Candidate(t, settingsName, SellerCodes[i]))
    requires forall j :: 0 <= j < i ==> !Stops(Candidate(t, settingsName, SellerCodes[j]))
    ensures SellerOtherId(t, settingsName, branchConfiguration, branch)
         == (Candidate(t, settingsName, SellerCodes[i]), LabelOr(LookupTypeName(t, settingsName, SellerCodes[i])))
  {
    var branchValue := if branchConfiguration && Truthy(branch) then LookupValue(t, branch.value, "CRN") else None;
    ScanStopsAtFirst(t, settingsName, SellerCodes, branchValue, i);
  }

  /**
   * When no settings-level candidate stops the loop, the seller's ID is what the
   * last code (`OTH`) produced, which is null or the text `CRN`, with the default label.
   */
  lemma SellerFallsBack(t: IdTable, settingsName: string, branchConfiguration: bool, branch: Option<string>)
    requires !BranchOverride(t, branchConfiguration, branch)
    requires forall j :: 0 <= j < |SellerCodes| ==> !Stops(Candidate(t, settingsName, SellerCodes[j]))
    ensures SellerOtherId(t, settingsName, branchConfiguration, branch) == (Candidate(t, settingsName, "OTH"), DefaultLabel)
    ensures Candidate(t, settingsName, "OTH") in {None, Some("CRN")}
  {
    var branchValue := if branchConfiguration && Truthy(branch) then LookupValue(t, branch.value, "CRN") else None;
    ScanRunsOut(t, settingsName, SellerCodes, branchValue);
    assert !Stops(Candidate(t, settingsName, SellerCodes[5]));
  }

  /** The buyer's ID is the first candidate in `TIN, CRN, MOM, ..., OTH` order that stops the loop. */
  lemma BuyerPicksFirstStoppingId(t: IdTable, customer: string, i: nat)
    requires i < |BuyerCodes| && Stops(Candidate(t, customer, BuyerCodes[i]))
    requires forall j :: 0 <= j < i ==> !Stops(Candidate(t, customer, BuyerCodes[j]))
    ensures BuyerOtherId(t, customer) == (Candidate(t, customer, BuyerCodes[i]), LabelOr(LookupTypeName(t, customer, BuyerCodes[i])))
  {
    ScanStopsAtFirst(t, customer, BuyerCodes, None, i);
  }

  /** When no candidate stops the loop, the buyer's ID is what `OTH` produced, with the default label. */
  lemma BuyerFallsBack(t: IdTable, customer: string)
    requires forall j :: 0 <= j < |BuyerCodes| ==> !Stops(Candidate(t, customer, BuyerCodes[j]))
    ensures BuyerOtherId(t, customer) == (Candidate(t, customer, "OTH"), DefaultLabel)
    ensures Candidate(t, customer, "OTH") in {None, Some("CRN")}
  {
    ScanRunsOut(t, customer, BuyerCodes, None);
    assert !Stops(Candidate(t, customer, BuyerCodes[10]));
  }
}
