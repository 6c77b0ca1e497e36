/** The transaction-history export of the account exporter: each transaction
    record of the account becomes one ten-column row after a fixed header row,
    and the table is written out as comma-separated text behind a data-URI
    prefix. Values the source renders with `toString()` or `toDateString()` are
    carried as the text those calls give. */
module History {
  import opened Wrappers
  import Csv

  /** The monetary part of a payment-shaped record (`UserPaymentTx`): the
      rendered amount and asset id of `value`, the rendered amount of `fee`,
      and whether the account sent the payment. */
  datatype Payment = Payment(value: Rendered, assetId: Rendered, fee: Rendered, isSender: bool)

  /** The text `toString()` gives for a number or a bigint: opaque, but
      never empty. */
  type Rendered = s: string | |s| > 0 witness "0"

  /** One transaction record as the SDK reports it. `txId`, `created` and
      `settled` may be missing (a pending transaction has not settled);
      `payment` is present exactly for payment-shaped records. */
  datatype Tx = Tx(
    proofId: int,
    userId: string,
    txId: Option<string>,
    created: Option<string>,
    settled: Option<string>,
    payment: Option<Payment>)

  type Row = seq<string>

  /** The record fields the export reads through a forced unwrap. */
  datatype Field = TxIdField | CreatedField | SettledField

  /** Reading a missing field aborts the whole export: the index of the
      record being converted and the field it lacked. */
  datatype ExportError = UnwrapFailed(record: nat, field: Field)

  const RowWidth: nat := 10

  // Column positions, in the order of the header.
  const EthAccountColumn: nat := 0
  const UserIdColumn: nat := 1
  const TxIdColumn: nat := 2
  const CreatedColumn: nat := 3
  const SettledColumn: nat := 4
  const TxTypeColumn: nat := 5
  const AssetIdColumn: nat := 6
  const ValueColumn: nat := 7
  const FeeColumn: nat := 8
  const SenderColumn: nat := 9

  const Header: Row := [
    "Ethereum account", "Aztec userId", "txId", "created", "settled",
    "Tx Type", "AssetId", "Value", "Fee", "Sender?"]

  /** The type label of a proof id; any id outside 1..6 gets the empty label
      and the export carries on. */
  function TxTypeLabel(proofId: int): (typeName: string)
    ensures typeName == "" <==> !(1 <= proofId <= 6)
  {
    match proofId
    case 1 => "Deposit"
    case 2 => "Withdrawal"
    case 3 => "Send"
    case 4 => "Account"
    case 5 => "Defi Deposit"
    case 6 => "Defi Claim"
    case _ => ""
  }

  /** The proof id a label names; 0 for the empty label or any other text. */
  function ProofIdOfLabel(typeName: string): int
  {
    if typeName == "Deposit" then 1
    else if typeName == "Withdrawal" then 2
    else if typeName == "Send" then 3
    else if typeName == "Account" then 4
    else if typeName == "Defi Deposit" then 5
    else if typeName == "Defi Claim" then 6
    else 0
  }

  /** JavaScript's rendering of a boolean. */
  function BoolText(b: bool): (text: string)
    ensures text != ""
    ensures text == "true" <==> b
  {
    if b then "true" else "false"
  }

  /** All fields the export unwraps are present. */
  predicate Complete(tx: Tx)
  {
    tx.txId.Some? && tx.created.Some? && tx.settled.Some?
  }

  /** The first missing unwrapped field, in the order the row literal
      evaluates them. */
  function MissingField(tx: Tx): (f: Option<Field>)
    ensures f.None? <==> Complete(tx)
    ensures f == Some(TxIdField) <==> tx.txId.None?
    ensures f == Some(CreatedField) <==> tx.txId.Some? && tx.created.None?
    ensures f == Some(SettledField) <==> tx.txId.Some? && tx.created.Some? && tx.settled.None?
  {
    if tx.txId.None? then Some(TxIdField)
    else if tx.created.None? then Some(CreatedField)
    else if tx.settled.None? then Some(SettledField)
    else None
  }

  /** The four monetary columns: the payment's asset id, value, fee and
      sender flag, or four empty fields for a record that is not a payment. */
  function MoneyColumns(payment: Option<Payment>): (columns: seq<string>)
    ensures |columns| == 4
    ensures payment.None? ==> forall k | 0 <= k < 4 :: columns[k] == ""
    ensures payment.Some? ==> forall k | 0 <= k < 4 :: columns[k] != ""
  {
    match payment
    case None => ["", "", "", ""]
    case Some(p) => [p.assetId, p.value, p.fee, BoolText(p.isSender)]
  }

  /** The row of one complete record. */
  function DataRow(ethAccount: string, tx: Tx): (row: Row)
    requires Complete(tx)
    ensures |row| == |Header| == RowWidth
    ensures row[EthAccountColumn] == ethAccount
    ensures row[TxTypeColumn] == "" <==> !(1 <= tx.proofId <= 6)
    ensures row[SenderColumn] == "" <==> tx.payment.None?
  {
    [ethAccount, tx.userId, tx.txId.value, tx.created.value, tx.settled.value, TxTypeLabel(tx.proofId)]
    + MoneyColumns(tx.payment)
  }

  /** The index of the first record that lacks an unwrapped field, if any. */
  function FirstIncomplete(txs: seq<Tx>): (k: Option<nat>)
    ensures k.None? <==> forall i | 0 <= i < |txs| :: Complete(txs[i])
    ensures k.Some? ==> k.value < |txs| && !Complete(txs[k.value])
    ensures k.Some? ==> forall i | 0 <= i < k.value :: Complete(txs[i])
  {
    if |txs| == 0 then None
    else if !Complete(txs[0]) then Some(0)
    else match FirstIncomplete(txs[1..])
      case None => None
      case Some(k) => Some(k + 1)
  }

  /** The exported table: the header, then one row per record in record
      order; or the failure the first incomplete record raises. */
  function Export(ethAccount: string, txs: seq<Tx>): (r: Result<seq<Row>, ExportError>)
    ensures r.Success? <==> forall i | 0 <= i < |txs| :: Complete(txs[i])
    ensures r.Success? ==> |r.value| == |txs| + 1 && r.value[0] == Header
    ensures r.Failure? ==> r.error.record < |txs| && !Complete(txs[r.error.record])
  {
    match FirstIncomplete(txs)
    case Some(i) => Failure(UnwrapFailed(i, MissingField(txs[i]).value))
    case None =>
      Success([Header] + seq(|txs|, i requires 0 <= i < |txs| && Complete(txs[i]) => DataRow(ethAccount, txs[i])))
  }

  /** The exported text, before it is URI-encoded and opened. */
  function ExportText(ethAccount: string, txs: seq<Tx>): (r: Result<string, ExportError>)
    ensures r.Success? <==> forall i | 0 <= i < |txs| :: Complete(txs[i])
    ensures r.Success? ==> Csv.DataUriPrefix <= r.value
    ensures r.Failure? ==> Export(ethAccount, txs) == Failure(r.error)
  {
    match Export(ethAccount, txs)
    case Success(rows) => Success(Csv.Serialize(rows))
    case Failure(e) => Failure(e)
  }

  /** `getHistory` after the SDK has returned `txs`: rows are pushed one
      record at a time onto a table that starts with the header; the
      per-record columns start empty and are overwritten by the proof-id
      switch and, for payments, by the monetary fields. */
  method GetHistory(ethAccount: string, txs: seq<Tx>) returns (result: Result<string, ExportError>)
    ensures result == ExportText(ethAccount, txs)
  {
    var rows: seq<Row> := [Header];
    var i := 0;
    while i < |txs|
      invariant 0 <= i <= |txs|
      invariant forall j | 0 <= j < i :: Complete(txs[j])
      invariant |rows| == i + 1 && rows[0] == Header
      invariant forall j | 0 <= j < i :: rows[j + 1] == DataRow(ethAccount, txs[j])
    {
      var tx := txs[i];
      var txType, value, assetId, isSender, fee := "", "", "", "", "";
      txType := TxTypeLabel(tx.proofId);
      if tx.payment.Some? {
        value := tx.payment.value.value;
        assetId := tx.payment.value.assetId;
        fee := tx.payment.value.fee;
        isSender := BoolText(tx.payment.value.isSender);
      }
      if tx.txId.None? {
        return Failure(UnwrapFailed(i, TxIdField));
      }
      if tx.created.None? {
        return Failure(UnwrapFailed(i, CreatedField));
      }
      if tx.settled.None? {
        return Failure(UnwrapFailed(i, SettledField));
      }
      var row := [
        ethAccount, tx.userId, tx.txId.value, tx.created.value, tx.settled.value,
        txType, assetId, value, fee, isSender];
      assert [assetId, value, fee, isSender] == MoneyColumns(tx.payment);
      assert row == DataRow(ethAccount, tx);
      rows := rows + [row];
      i := i + 1;
    }
    assert rows == [Header] + seq(|txs|, j requires 0 <= j < |txs| && Complete(txs[j]) => DataRow(ethAccount, txs[j]));
    result := Success(Csv.Serialize(rows));
  }
}
