/**
 * The phase-1 QR code of an invoice: which values it carries, in which order,
 * and the payload built from them (`get_zatca_phase_1_qr_for_invoice`).
 */
module QrInputs {
  import opened Wrappers
  import opened Invoices
  import Tlv
  import Base64
  import Utf8

  /** The fields of a `ZATCA Phase 1 Business Settings` record the QR code reads. */
  datatype Phase1Settings = Phase1Settings(status: string, vatRegistrationNumber: string)

  /** The invoice records, one table per document type. */
  datatype Store = Store(
    posInvoices: map<string, Invoice>,
    salesInvoices: map<string, Invoice>,
    phase1ByCompany: map<string, Phase1Settings>)

  /** A POS Invoice of that name wins over a Sales Invoice of the same name. */
  function FindInvoice(store: Store, name: string): (r: Option<Invoice>)
    ensures r.Some? <==> name in store.posInvoices || name in store.salesInvoices
    ensures name in store.posInvoices ==> r == Some(store.posInvoices[name])
    ensures name !in store.posInvoices && name in store.salesInvoices ==> r == Some(store.salesInvoices[name])
  {
    if name in store.posInvoices then Some(store.posInvoices[name])
    else if name in store.salesInvoices then Some(store.salesInvoices[name])
    else None
  }

  /** The phase-1 QR code is produced: the invoice exists and its company's phase-1 settings exist and are not disabled. */
  predicate Enabled(store: Store, name: string) {
    var inv := FindInvoice(store, name);
    inv.Some? && inv.value.company in store.phase1ByCompany
    && store.phase1ByCompany[inv.value.company].status != "Disabled"
  }

  /**
   * `_get_qr_inputs(invoice_name)`: seller name, VAT registration number,
   * timestamp, invoice total and VAT total, in the order of tags 1 to 5 of the
   * ZATCA QR code. `formatDate` stands for `_format_date`.
   */
  function GetQrInputs(store: Store, name: string, formatDate: (string, string) -> string): (r: Option<seq<string>>)
    ensures r.Some? <==> Enabled(store, name)
    ensures r.Some? ==>
      var inv := FindInvoice(store, name).value;
      && |r.value| == 5
      && r.value[0] == inv.company
      && r.value[1] == store.phase1ByCompany[inv.company].vatRegistrationNumber
      && r.value[2] == formatDate(inv.postingDate, inv.postingTime)
      && r.value[3] == inv.grandTotal
      && r.value[4] == inv.totalTaxesAndCharges
  {
    match FindInvoice(store, name)
    case None => None
    case Some(inv) =>
      if inv.company !in store.phase1ByCompany then None
      else
        var settings := store.phase1ByCompany[inv.company];
        if settings.status == "Disabled" then None
        else Some([inv.company, settings.vatRegistrationNumber,
                   formatDate(inv.postingDate, inv.postingTime),
                   inv.grandTotal, inv.totalTaxesAndCharges])
  }

  /** A payload that reads back as at least one record is not the empty text. */
  lemma NonEmptyPayload(s: string, values: seq<string>)
    requires values != []
    requires Tlv.DecodePayload(s) == Some(Tlv.Numbered(values))
    ensures s != ""
  {
    if s == "" {
      DecodeEmptyPayload();
    }
  }

  /** The empty text reads back as no records at all. */
  lemma DecodeEmptyPayload()
    ensures Tlv.DecodePayload("") == Some([])
  {
    assert Base64.Decode("") == Some([]);
    assert Tlv.Parse([]) == Some([]);
    var none: seq<Tlv.Field> := [];
    assert seq(0, i requires 0 <= i < |none| && Utf8.Decode(none[i].value).Some? =>
      (none[i].tag as int, Utf8.Decode(none[i].value).value)) == [];
  }

  /** The five inputs numbered as tags 1 to 5. */
  lemma NumberedFive(values: seq<string>)
    requires |values| == 5
    ensures Tlv.Numbered(values) == [(1, values[0]), (2, values[1]), (3, values[2]), (4, values[3]), (5, values[4])]
  {
  }

  /**
   * `get_zatca_phase_1_qr_for_invoice` up to the text it hands to
   * `_generate_qrcode`: `Ok(None)` when there is no QR code, an error when a
   * value is too long for its one-byte length, and otherwise a non-empty
   * payload that reads back as tags 1 to 5 carrying the five inputs, so the
   * renderer's empty-data guard never applies.
   */
  method Phase1QrPayload(store: Store, name: string, formatDate: (string, string) -> string)
    returns (r: Result<Option<string>, Tlv.EncodeError>)
    ensures r == Ok(None) <==> !Enabled(store, name)
    ensures r.Err? <==> Enabled(store, name) && !Tlv.Fits(GetQrInputs(store, name, formatDate).value)
    ensures r.Ok? && r.value.Some? ==>
      var values := GetQrInputs(store, name, formatDate).value;
      && r.value.value != ""
      && Tlv.DecodePayload(r.value.value) == Some(Tlv.Numbered(values))
      && Tlv.DecodePayload(r.value.value) == Some([(1, values[0]), (2, values[1]), (3, values[2]), (4, values[3]), (5, values[4])])
  {
    var values := GetQrInputs(store, name, formatDate);
    if values.None? {
      return Ok(None);
    }
    var decoded := Tlv.GenerateDecodedString(values.value);
    if decoded.Err? {
      return Err(decoded.error);
    }
    NonEmptyPayload(decoded.value, values.value);
    NumberedFive(values.value);
    r := Ok(Some(decoded.value));
  }
}
