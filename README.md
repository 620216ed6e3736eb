# ZATCA print helpers of `ksa_compliance`, modelled in Dafny

`ksa_compliance/jinja.py` provides the helpers that Saudi (ZATCA) e-invoice
print formats call. This project models four of them:

- **Phase-1 QR payload** (`_encode_input`, `_generate_decoded_string`,
  `_get_qr_inputs`, `get_zatca_phase_1_qr_for_invoice`). Each value becomes a
  TLV record: a tag byte, a length byte holding the UTF-8 byte count, then the
  UTF-8 bytes. Values are tagged 1, 2, 3, … in list order. The records are
  joined as lower-case hex, turned back into bytes with `bytes.fromhex` and
  base 64 encoded (section 4 of RFC 4648).
- **Legacy item-wise tax details** (the pre-v16 branch of
  `get_item_wise_tax_details`, and `_find_first_or_default`). Each stored
  `item_code -> [rate, amount]` entry goes to the first invoice line with that
  item code. Every other line keeps a zero row.
- **Other-ID resolution** (`_get_seller_other_id`, `_get_buyer_other_id`).
  Each walks a fixed priority list of type codes, strips each value and stops
  at the first value that is non-blank and is not the text `CRN`. The seller
  first tries a branch-level `CRN`.
- **Print-format details** (`get_phase_2_print_format_details`). It returns
  the settings, the address, both other IDs and the additional-fields record.
  The address comes entirely from the branch or entirely from the settings.

Modules:

| module | file | contents |
|---|---|---|
| `Wrappers` | `wrappers.dfy` | `Option`, `Result` |
| `Hex` | `hex.dfy` | `bytes.hex()` and `bytes.fromhex()` |
| `Utf8` | `utf8.dfy` | `str.encode('utf-8')` and a strict decoder |
| `Base64` | `base64.dfy` | `base64.b64encode` and a strict decoder |
| `Tlv` | `tlv.dfy` | records, the encoding loop, reading the payload back |
| `TaxDetails` | `tax_details.dfy` | the legacy reconciliation |
| `OtherIds` | `other_ids.dfy` | seller/buyer other-ID resolution |
| `Invoices` | `invoices.dfy` | the invoice fields read (one type for POS and Sales invoices) |
| `PrintFormat` | `print_format.dfy` | the phase-2 print details |
| `QrInputs` | `qr_inputs.dfy` | the phase-1 QR inputs and payload |

Framework lookups are maps passed in as arguments:

- `frappe.get_value` and `frappe.db.exists` yield `None` when nothing matches.
- `frappe.get_doc` and `frappe.get_last_doc` raise `DoesNotExistError`, modelled as an `Err` result.
- The `ValueError`s of `bytes([...])` are `Err` results too.

Strings are Dafny strings, whose characters are Unicode scalar values. The
UTF-8 and base 64 decoders and the TLV parser do not exist in the source. They
are reference definitions, and the round-trip lemmas tie the encoders to them:
a scanner that reads the QR payload gets back the tags and values that went in.

The test at `ksa_compliance/jinja.py:185` (and `:199` for the buyer) compares
the *value*, not the type code, with the text `CRN`. So a settings-level `CRN`
value such as `"999"` stops the loop and is labelled with the `CRN` row's own
`type_name`, or with the default label "Commercial Registration Number" if
that name is blank (`OtherIds.SellerPicksFirstStoppingId` with `i = 0`, and
`OtherIds.LabelOr`). When the loop never stops, the result is whatever the
last code (`OTH`) produced.

## Model

| member | source | states |
|---|---|---|
| Hex.ToHex | ksa_compliance/jinja.py:104-110 | `.hex()` gives two lower-case hex digits per byte |
| Hex.ToHexAppend | ksa_compliance/jinja.py:111 | the hex of joined bytes is the joined hex |
| Hex.FromHex | ksa_compliance/jinja.py:94 | `bytes.fromhex`: `None` where Python raises `ValueError`; at most one byte per two characters |
| Hex.FromHexSkipsWhitespace | ksa_compliance/jinja.py:94 | ASCII whitespace before a byte's two digits is skipped |
| Hex.FromHexPair | ksa_compliance/jinja.py:94 | two digits of either case give one byte, high digit first |
| Hex.FromHexToHex | ksa_compliance/jinja.py:94 | `bytes.fromhex(b.hex()) == b` |
| Utf8.EncodeChar | ksa_compliance/jinja.py:106-107 | a character takes 1 to 4 bytes; every byte after the first is a continuation byte |
| Utf8.Encode | ksa_compliance/jinja.py:106-107 | a string's UTF-8 encoding has between `n` and `4n` bytes |
| Utf8.DecodeEncode | ksa_compliance/jinja.py:106-107 | decoding the UTF-8 encoding gives the string back |
| Utf8.EncodeAppend | ksa_compliance/jinja.py:106-107 | encoding distributes over concatenation |
| Utf8.EncodeLengthIsCharCountIffAscii | ksa_compliance/jinja.py:106 | the length byte equals the character count iff every character is ASCII |
| Base64.Encode | ksa_compliance/jinja.py:94 | `b64encode` writes `4 * ceil(n / 3)` characters |
| Base64.OnePadBitsRejected | ksa_compliance/jinja.py:94 | the reference decoder rejects every `==` group whose second character leaves non-zero unused bits |
| Base64.TwoPadBitsRejected | ksa_compliance/jinja.py:94 | the reference decoder rejects every `=` group whose third character leaves non-zero unused bits |
| Base64.DecodeEncode | ksa_compliance/jinja.py:94 | decoding the base 64 text gives the bytes back |
| Base64.EncodeDecode | ksa_compliance/jinja.py:94 | every text the decoder accepts is the `b64encode` output for the bytes it decodes to |
| Base64.DecodeInjective | ksa_compliance/jinja.py:94 | two accepted texts that decode to the same bytes are equal: each byte sequence has exactly one accepted text |
| Tlv.ParseSerialize | ksa_compliance/jinja.py:104-111 | tag/length/value records parse back into the same records |
| Tlv.SerializeAppend | ksa_compliance/jinja.py:91-92 | the layout of joined record lists is the joined layout |
| Tlv.EncodeInput | ksa_compliance/jinja.py:97-111 | succeeds iff the tag is in 0..255 and the UTF-8 value has at most 255 bytes; the tag is checked first; on success the text is `2*(2+n)` hex digits spelling `[tag, n] + utf8(value)` |
| Tlv.EncodedTextIsRecords | ksa_compliance/jinja.py:89-92 | the loop's hex text exists iff every value fits; it is then the hex of records tagged 1..n in list order |
| Tlv.EncodedTextErrorSticks | ksa_compliance/jinja.py:91-92 | the first value that raises ends the loop with its error |
| Tlv.HexTextIsHex | ksa_compliance/jinja.py:94 | `bytes.fromhex` never raises on the loop's text |
| Tlv.Payload | ksa_compliance/jinja.py:89-94 | the loop's first error if it raises; otherwise base 64 text that decodes to the bytes the loop's hex text spells |
| Tlv.PayloadRoundTrip | ksa_compliance/jinja.py:89-94 | the payload exists iff the values fit; its base 64 decodes to the records tagged 1..n; reading it back gives `(i + 1, values[i])` for every i |
| Tlv.GenerateDecodedString | ksa_compliance/jinja.py:89-94 | the loop computes the payload; same success condition and read-back |
| TaxDetails.FirstIndex | ksa_compliance/jinja.py:210-216 | the position found satisfies the predicate and no earlier item does; none found means no item does |
| TaxDetails.FindFirstOrDefault | ksa_compliance/jinja.py:210-216 | returns the first item satisfying the predicate, else the default |
| TaxDetails.ZeroRows | ksa_compliance/jinja.py:48 | one zero row per line name, keyed by exactly the line names |
| TaxDetails.Reconcile | ksa_compliance/jinja.py:48-53 | on success the keys are exactly the invoice line names: entries only overwrite existing keys |
| TaxDetails.LegacyItemWiseTaxDetails | ksa_compliance/jinja.py:48-53 | the loop computes the reconciliation; keys are the line names |
| TaxDetails.ReconcileErrorSticks | ksa_compliance/jinja.py:49-52 | an `IndexError` on one entry ends the loop with that error |
| TaxDetails.ReconcileFailsIff | ksa_compliance/jinja.py:49-52 | the loop raises iff some entry that matches a line has fewer than two numbers |
| TaxDetails.ApplyEntryOk | ksa_compliance/jinja.py:50-52 | one entry raises iff it matches a line and has fewer than two numbers |
| TaxDetails.ApplyEntryKeeps | ksa_compliance/jinja.py:50-52 | an entry leaves every line except its first matching line alone |
| TaxDetails.ApplyEntryWrites | ksa_compliance/jinja.py:50-52 | an entry writes its `[rate, amount]` to its first matching line |
| TaxDetails.ReconcileOwnedRow | ksa_compliance/jinja.py:49-52 | the first line with an entry's item code ends with that entry's rate and amount |
| TaxDetails.ReconcileUnownedRow | ksa_compliance/jinja.py:48-52 | a line that is first for no entry's item code keeps its zero row |
| TaxDetails.RepeatedItemCodeExample | ksa_compliance/jinja.py:39-53 | with two lines of the same item code, only the first gets the stored rate and amount |
| OtherIds.LookupValue | ksa_compliance/jinja.py:176-183 | a missing row yields `None` |
| OtherIds.LookupTypeName | ksa_compliance/jinja.py:186-187 | a missing row yields `None` |
| OtherIds.StripStart | ksa_compliance/jinja.py:184 | removes exactly a leading run of whitespace |
| OtherIds.StripEnd | ksa_compliance/jinja.py:184 | removes exactly a trailing run of whitespace |
| OtherIds.Strip | ksa_compliance/jinja.py:184 | the result is the slice of the input that starts right after its leading whitespace run; everything before and after that slice is whitespace; the slice has no whitespace at either end, and it is empty iff the input is all whitespace |
| OtherIds.StripFacts | ksa_compliance/jinja.py:184 | `strip` is `lstrip` then `rstrip`: the result is the input with its leading and trailing whitespace runs cut off |
| OtherIds.StripUnpadded | ksa_compliance/jinja.py:184 | text with no whitespace at either end is unchanged |
| OtherIds.StripIdempotent | ksa_compliance/jinja.py:184 | stripping twice is stripping once |
| OtherIds.Clean | ksa_compliance/jinja.py:184 | `None` iff the value is null or all whitespace; otherwise the stripped, non-empty text |
| OtherIds.LabelOr | ksa_compliance/jinja.py:190 | a truthy `type_name` is used as is; the label is never empty |
| OtherIds.ScanStopsAtFirst | ksa_compliance/jinja.py:180-189 | the loop ends at the first candidate that is truthy and not `CRN`, with that row's `type_name` |
| OtherIds.ScanRunsOut | ksa_compliance/jinja.py:180-189 | if no candidate stops the loop, the last candidate's value is kept and no name is read |
| OtherIds.ScanOtherIds | ksa_compliance/jinja.py:180-189 | the loop with `break` computes the scan |
| OtherIds.SellerOtherId | ksa_compliance/jinja.py:171-190 | a truthy branch `CRN` is returned unstripped with the default label; the label is never empty |
| OtherIds.BuyerOtherId | ksa_compliance/jinja.py:193-204 | the buyer's label is never empty |
| OtherIds.GetSellerOtherId | ksa_compliance/jinja.py:171-190 | computes the seller's (value, label) |
| OtherIds.GetBuyerOtherId | ksa_compliance/jinja.py:193-204 | computes the buyer's (value, label) |
| OtherIds.SellerPicksFirstStoppingId | ksa_compliance/jinja.py:174-190 | without a branch override, the first stopping code in `CRN, MOM, MLS, 700, SAG, OTH` order gives the value and that row's label |
| OtherIds.SellerFallsBack | ksa_compliance/jinja.py:179-190 | if nothing stops the loop, the value is `OTH`'s (null or `CRN`) with the default label |
| OtherIds.BuyerPicksFirstStoppingId | ksa_compliance/jinja.py:196-204 | the first stopping code in `TIN, CRN, …, OTH` order gives the value and that row's label |
| OtherIds.BuyerFallsBack | ksa_compliance/jinja.py:196-204 | if nothing stops the loop, the value is `OTH`'s (null or `CRN`) with the default label |
| PrintFormat.EnabledSettings | ksa_compliance/jinja.py:138-142 | a settings record is found iff the company has one with ZATCA integration enabled |
| PrintFormat.GetPhase2PrintFormatDetails | ksa_compliance/jinja.py:137-168 | `None` iff there are no enabled settings; it raises iff a needed branch or the additional-fields record is missing; all four address fields come from the branch iff branch configuration is on, the invoice has a branch and the branch has a company address, otherwise all four from the settings; the IDs are the resolvers' results |
| QrInputs.FindInvoice | ksa_compliance/jinja.py:65-70 | a POS Invoice of that name is preferred over a Sales Invoice; `None` if neither exists |
| QrInputs.GetQrInputs | ksa_compliance/jinja.py:64-86 | `None` iff the invoice or the company's phase-1 settings are missing, or the settings are disabled; otherwise exactly `[company, VAT number, timestamp, grand total, total VAT]` |
| QrInputs.NonEmptyPayload | ksa_compliance/jinja.py:126-128 | a payload that reads back as records is never empty |
| QrInputs.Phase1QrPayload | ksa_compliance/jinja.py:56-61 | no QR iff there are no inputs; it raises iff a value is over 255 UTF-8 bytes; otherwise a non-empty payload reading back as tags 1–5 with the five inputs |

## Left out

- Frappe database access is not modelled as I/O. Lookups are maps: each company has at most one `ZATCA Business Settings` record and at most one `ZATCA Phase 1 Business Settings` record. `get_last_doc` is a map from invoice to its latest additional-fields record, represented by its name.
- The v16 branch of `get_item_wise_tax_details` (`ksa_compliance/jinja.py:29-37`) is left out. It is a `semantic_version` comparison plus a framework query and a dictionary comprehension.
- `json.loads` of the legacy blob (`ksa_compliance/jinja.py:43-47`) is left out. The parsed mapping is an input: a sequence of entries in insertion order.
- TaxDetails.Reconcile: rates and amounts are `real` and are only copied. Entries holding more than two numbers are accepted and their extra numbers ignored, as in the code.
- `_format_date` (`ksa_compliance/jinja.py:114-123`) is not modelled. It depends on the host's local timezone and on `strftime`, so the timestamp comes from a function parameter.
- `str()` of numbers (`ksa_compliance/jinja.py:109`) is not modelled. Totals reach the encoder as already-rendered strings.
- QR image rendering with `pyqrcode` and PNG output (`ksa_compliance/jinja.py:129-134`) is not modelled. Only the `not data` guard is covered, by showing it never applies.
- Python strings containing lone surrogates cannot be represented: Dafny characters are Unicode scalar values.
- Tlv.Payload: the `InvalidHex` error models `bytes.fromhex` raising. `Tlv.HexTextIsHex` shows it cannot happen.
- PrintFormat.GetPhase2PrintFormatDetails: the settings record and the additional-fields record carry only the fields read here. The latter is represented by its name, not its full contents.
