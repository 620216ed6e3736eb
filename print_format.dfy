/**
 * `get_phase_2_print_format_details`: the settings, the seller address, the
 * seller's and buyer's other IDs and the additional-fields record an invoice's
 * print format shows.
 */
module PrintFormat {
  import opened Wrappers
  import opened Invoices
  import opened OtherIds

  /** The fields of a `ZATCA Business Settings` record the print details read. */
  datatype BusinessSettings = BusinessSettings(
    name: string,
    enableZatcaIntegration: bool,
    enableBranchConfiguration: bool,
    street: string,
    district: string,
    city: string,
    postalCode: string)

  /** The fields of a `Branch` record the print details read. */
  datatype Branch = Branch(
    customCompanyAddress: Option<string>,
    customStreet: string,
    customDistrict: string,
    customCity: string,
    customPostalCode: string)

  datatype Address = Address(street: string, district: string, city: string, postalCode: string)

  datatype PrintDetails = PrintDetails(
    settings: BusinessSettings,
    address: Address,
    sellerOtherId: Option<string>,
    sellerOtherIdName: string,
    buyerOtherId: Option<string>,
    buyerOtherIdName: string,
    additionalFields: string)

  /** `frappe.get_doc` and `frappe.get_last_doc` raise `DoesNotExistError` for a missing record. */
  datatype LookupError = BranchNotFound(branch: string) | AdditionalFieldsNotFound(invoice: string)

  /** The records the print details are read from. */
  datatype Store = Store(
    settingsByCompany: map<string, BusinessSettings>,
    branches: map<string, Branch>,
    sellerIds: IdTable,
    buyerIds: IdTable,
    lastAdditionalFields: map<string, string>)  // invoice name -> latest `Sales Invoice Additional Fields`

  /** The company's settings record, if it exists and has ZATCA integration enabled. */
  function EnabledSettings(store: Store, company: string): (r: Option<BusinessSettings>)
    ensures r.Some? <==> company in store.settingsByCompany && store.settingsByCompany[company].enableZatcaIntegration
  {
    if company in store.settingsByCompany && store.settingsByCompany[company].enableZatcaIntegration
    then Some(store.settingsByCompany[company])
    else None
  }

  /** The branch record is read only when branch configuration is on and the invoice has a branch. */
  predicate ReadsBranch(settings: BusinessSettings, inv: Invoice) {
    settings.enableBranchConfiguration && Truthy(inv.branch)
  }

  /** The address comes from the branch: the branch is read and has a company address. */
  predicate UsesBranchAddress(store: Store, settings: BusinessSettings, inv: Invoice) {
    ReadsBranch(settings, inv) && inv.branch.value in store.branches
    && Truthy(store.branches[inv.branch.value].customCompanyAddress)
  }

  function SettingsAddress(s: BusinessSettings): Address {
    Address(s.street, s.district, s.city, s.postalCode)
  }

  function BranchAddress(b: Branch): Address {
    Address(b.customStreet, b.customDistrict, b.customCity, b.customPostalCode)
  }

  /** `get_phase_2_print_format_details(invoice)`. */
  method GetPhase2PrintFormatDetails(inv: Invoice, store: Store) returns (r: Result<Option<PrintDetails>, LookupError>)
    ensures r == Ok(None) <==> EnabledSettings(store, inv.company).None?
    ensures r.Err? <==>
      var s := EnabledSettings(store, inv.company);
      s.Some? && ((ReadsBranch(s.value, inv) && inv.branch.value !in store.branches) || inv.name !in store.lastAdditionalFields)
    ensures r.Ok? && r.value.Some? ==>
      var d := r.value.value;
      var s := EnabledSettings(store, inv.company).value;
      && d.settings == s
      && d.address == (if UsesBranchAddress(store, s, inv) then BranchAddress(store.branches[inv.branch.value]) else SettingsAddress(s))
      && (d.sellerOtherId, d.sellerOtherIdName) == SellerOtherId(store.sellerIds, s.name, s.enableBranchConfiguration, inv.branch)
      && (d.buyerOtherId, d.buyerOtherIdName) == BuyerOtherId(store.buyerIds, inv.customer)
      && d.additionalFields == store.lastAdditionalFields[inv.name]
  {
    var found := EnabledSettings(store, inv.company);
    if found.None? {
      return Ok(None);
    }
    var settings := found.value;
    var branchDoc: Option<Branch> := None;
    var hasBranchAddress := false;
    if settings.enableBranchConfiguration {
      if Truthy(inv.branch) {
        if inv.branch.value !in store.branches {
          return Err(BranchNotFound(inv.branch.value));
        }
        branchDoc := Some(store.branches[inv.branch.value]);
        if Truthy(branchDoc.value.customCompanyAddress) {
          hasBranchAddress := true;
        }
      }
    }
    var sellerOtherId, sellerOtherIdName := GetSellerOtherId(store.sellerIds, settings.name, settings.enableBranchConfiguration, inv.branch);
    var buyerOtherId, buyerOtherIdName := GetBuyerOtherId(store.buyerIds, inv.customer);
    if inv.name !in store.lastAdditionalFields {
      return Err(AdditionalFieldsNotFound(inv.name));
    }
    var siaf := store.lastAdditionalFields[inv.name];
    var address := Address(
      if hasBranchAddress then branchDoc.value.customStreet else settings.street,
      if hasBranchAddress then branchDoc.value.customDistrict else settings.district,
      if hasBranchAddress then branchDoc.value.customCity else settings.city,
      if hasBranchAddress then branchDoc.value.customPostalCode else settings.postalCode);
    r := Ok(Some(PrintDetails(settings, address, sellerOtherId, sellerOtherIdName, buyerOtherId, buyerOtherIdName, siaf)));
  }
}
