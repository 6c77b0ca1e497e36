# Aztec account history exporter: the export transform

The exporter is a single-page app. It connects a browser wallet and derives the
account's privacy key pair. It then lets the user download the account's
transaction history from the Aztec SDK as a comma-separated file. This project
models the part of `getHistory` that turns the SDK's transaction records into
that file:

- each record's numeric `proofId` gets a type label ("Deposit", "Withdrawal",
  "Send", "Account", "Defi Deposit", "Defi Claim" for 1 to 6, "" otherwise);
- a payment-shaped record (`UserPaymentTx`) fills the asset id, value, fee and
  sender columns, and any other record leaves them empty;
- each record becomes a ten-column row after a fixed ten-column header;
- the table is written as `data:text/csv;charset=utf-8,` followed by the rows,
  fields joined with `,` and rows with `\n`, with no quoting or escaping;
- a record without `txId`, `created` or `settled` makes the forced unwrap
  throw, and no file is produced at all.

Modules:

- `Wrappers` (wrappers.dfy): `Option` for fields the SDK may leave undefined,
  and `Result` for an export that either produces its text or throws.
- `Csv` (csv.dfy): `Join` is JavaScript's `join` with a one-character
  separator, and `Serialize` builds the exported text. `Split` and `Parse` are
  the reading direction. The lemmas say exactly when splitting undoes joining.
- `History` (history.dfy): the record datatypes and the label switch. `Export`
  and `ExportText` are the specification functions. `GetHistory` is the
  imperative loop that pushes rows onto the table, proved equal to
  `ExportText`.
- `HistoryProperties` (history_properties.dfy): the promises of the export as
  lemmas. They cover labels, column order, shape and order of the table, the
  abort on a missing field, and reading the text back into the records
  (`DecodeRow`, `Import`).

Rendered values are carried as the text their rendering gives. These are the
`toString()` of the account, the user id, the transaction id, the numeric asset
id and the bigint amounts, and the `toDateString()` of the two dates. The asset
id and the amounts are opaque but never empty (`History.Rendered`). The
sender flag is a
boolean, rendered as JavaScript does: "true" or "false".

## Model

| member | source | states |
|---|---|---|
| `History.TxTypeLabel` | src/App.tsx:131-150 | the label is empty exactly for proof ids outside 1..6; no id makes classification fail |
| `History.MissingField` | src/App.tsx:160-162 | a missing field is reported exactly when one of txId, created, settled is undefined, and the field reported is the first undefined one in the order txId, created, settled |
| `History.FirstIncomplete` | src/App.tsx:157-169 | finds the first record, in record order, that lacks an unwrapped field; none exactly when all are complete |
| `History.GetHistory` | src/App.tsx:109-174 | the loop that pushes one row per record after the header and joins the table produces exactly the specified export text or the first unwrap failure |
| `History.BoolText` | src/App.tsx:155 | the sender flag renders as a non-empty text that is "true" exactly when the flag is set |
| `History.MoneyColumns` | src/App.tsx:126-156 | four money fields: all empty for a record that is not a payment, all non-empty for a payment |
| `History.DataRow` | src/App.tsx:157-168 | a data row has the header's ten fields, starts with the account, has an empty type label exactly for ids outside 1..6 and an empty sender column exactly for non-payments |
| `History.Export` | src/App.tsx:111-169 | the table exists exactly when every record is complete, and then has records + 1 rows with the header first; a failure points at an incomplete record |
| `History.ExportText` | src/App.tsx:170-171 | the text exists exactly when every record is complete and then starts with the data-URI prefix; a failure is the table's failure |
| `HistoryProperties.KnownLabels` | src/App.tsx:131-150 | ids 1 to 6 get "Deposit", "Withdrawal", "Send", "Account", "Defi Deposit", "Defi Claim" |
| `HistoryProperties.LabelRoundTrip` | src/App.tsx:131-150 | the label determines the proof id within 1..6, and every other id gets the label of none of them |
| `HistoryProperties.LabelsDistinct` | src/App.tsx:131-150 | the six labels are pairwise different |
| `HistoryProperties.DataRowWidth` | src/App.tsx:157-168 | a data row has as many fields as the header: ten |
| `HistoryProperties.DataRowColumns` | src/App.tsx:111-168 | columns 0 to 5 hold account, user id, tx id, created, settled and type label, under the matching header names |
| `HistoryProperties.MoneyColumnsByShape` | src/App.tsx:126-168 | the sender column is empty exactly for non-payments, and all four money columns are non-empty exactly for payments; non-payments leave all four empty; payments fill asset id, value, fee and sender in header order |
| `HistoryProperties.DiscriminationsIndependent` | src/App.tsx:126-156 | the type label does not depend on the payment, and the money columns do not depend on the proof id |
| `HistoryProperties.DepositWithoutPayment` | src/App.tsx:131-167 | proof id 1 without a payment gives "Deposit" and four empty money columns |
| `HistoryProperties.SendPayment` | src/App.tsx:131-167 | proof id 3 paying 100 of asset 0 with fee 5, as sender, gives "Send", "0", "100", "5", "true" |
| `HistoryProperties.ExportSucceedsIff` | src/App.tsx:157-169 | the export succeeds if and only if every record has txId, created and settled |
| `HistoryProperties.ExportFailure` | src/App.tsx:157-169 | a failure names the first incomplete record and its first missing field in evaluation order |
| `HistoryProperties.ExportShape` | src/App.tsx:111-169 | records + 1 rows, header first, row i+1 built from record i, every row ten fields, every data row starting with the account |
| `HistoryProperties.EmptyExport` | src/App.tsx:111-171 | with no records the text is the prefix followed by the header line alone |
| `HistoryProperties.HeaderClean` | src/App.tsx:112-123 | no header name holds a comma or a newline |
| `HistoryProperties.DecodeDataRow` | src/App.tsx:157-168 | a data row reads back as its account and its record, with unknown proof ids collapsed to 0 |
| `HistoryProperties.ExportImportRoundTrip` | src/App.tsx:109-171 | when no rendered value holds a comma or a newline, reading the text back gives the account and every record, in order |
| `HistoryProperties.ExportTextNewlines` | src/App.tsx:170-171 | when no rendered value holds a comma or a newline, the text holds exactly one newline per record |
| `HistoryProperties.SenderColumnValues` | src/App.tsx:122-167 | the last column of every row, header included, is "Sender?", "true", "false" or empty |
| `HistoryProperties.NoTrailingNewline` | src/App.tsx:170-171 | for any field values, a successful export's text is non-empty and does not end with a newline |
| `Csv.Join` | src/App.tsx:171 | joining no parts gives the empty text; otherwise the join starts with the first part |
| `Csv.JoinEnd` | src/App.tsx:171 | the join ends with its last part, preceded by the separator when there are two parts or more |
| `Csv.JoinLastChar` | src/App.tsx:171 | the last character of a join of two or more parts is that of the last part, or the separator when the last part is empty |
| `Csv.Serialize` | src/App.tsx:170-171 | the text starts with the data-URI prefix |
| `Csv.SerializeEnd` | src/App.tsx:170-171 | the text ends with the last row's comma-joined line |
| `Csv.Lines` | src/App.tsx:171 | one joined line per row |
| `Csv.SplitJoin` | src/App.tsx:171 | splitting on the separator undoes joining when no part holds it |
| `Csv.SplitJoinExactly` | src/App.tsx:171 | the unescaped join round-trips if and only if no part holds the separator |
| `Csv.JoinOccurrences` | src/App.tsx:171 | joining n parts adds exactly n - 1 separators |
| `Csv.JoinExcludes` | src/App.tsx:171 | joining introduces no character other than the separator |
| `Csv.SerializeNewlines` | src/App.tsx:170-171 | the text of a clean table has rows - 1 newlines |
| `Csv.ParseSerialize` | src/App.tsx:170-171 | splitting the text on newlines, then on commas, recovers the table when no field holds either |

## Left out

- `connect()` (wallet detection, account request, chain id, SDK creation and synchronisation, key derivation, user lookup or creation): a chain of awaited calls into `ethers` and `@aztec/sdk` whose code is not part of this model. Every error is swallowed into a console log, so there is no error taxonomy or state machine to model.
- The `networkConfig[chainId]` lookup: network_config.js is not part of this model.
- `sdk.getUserTxs`: its result is the input sequence `txs`. The `sdk!` and `accountPublicKey!` assertions before it are not modelled.
- `ethAccount!.toString()`: the account is taken as its rendered text. The case of a missing account is not modelled; it would throw only when there is at least one record.
- `encodeURI` and `window.open`: browser I/O after the text is built. `ExportText` is the text before URI encoding.
- `toString()` of the user id, transaction id, numeric asset id and bigint amounts and `toDateString()` of the dates: kept as opaque text, so nothing is claimed about their format beyond the asset id and amounts being non-empty.
- The `accountsChanged` page reload, React state and rendering: UI plumbing.
- The rows pushed before a record fails stay in the local array, but the exception leaves `getHistory` and nothing is produced. The model returns the failure alone.
