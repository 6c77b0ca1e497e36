/** What the history export promises: the label of each proof id, the fixed
    shape and order of the table, the two independent discriminations (type
    label and payment shape), the abort on a missing field, and that the text
    can be read back into the records it came from. The reading direction
    (`DecodeRow`, `Import`) exists only to state that last promise. */
module HistoryProperties {
  import opened Wrappers
  import Csv
  import opened History

  // ---------------------------------------------------------------------
  // Type labels
  // ---------------------------------------------------------------------

  /** Proof ids 1 to 6 get exactly these labels. */
  lemma KnownLabels()
    ensures TxTypeLabel(1) == "Deposit" && TxTypeLabel(2) == "Withdrawal"
    ensures TxTypeLabel(3) == "Send" && TxTypeLabel(4) == "Account"
    ensures TxTypeLabel(5) == "Defi Deposit" && TxTypeLabel(6) == "Defi Claim"
  {
  }

  /** The label identifies the proof id among 1..6; every other id falls
      onto the empty label, which names none of them. */
  lemma LabelRoundTrip(proofId: int)
    ensures ProofIdOfLabel(TxTypeLabel(proofId)) == if 1 <= proofId <= 6 then proofId else 0
  {
  }

  /** Two ids in 1..6 share a label only if they are equal. */
  lemma LabelsDistinct(a: int, b: int)
    requires 1 <= a <= 6 && 1 <= b <= 6
    requires TxTypeLabel(a) == TxTypeLabel(b)
    ensures a == b
  {
    LabelRoundTrip(a);
    LabelRoundTrip(b);
  }

  // ---------------------------------------------------------------------
  // One row
  // ---------------------------------------------------------------------

  /** Every data row has as many fields as the header: ten. */
  lemma DataRowWidth(ethAccount: string, tx: Tx)
    requires Complete(tx)
    ensures |DataRow(ethAccount, tx)| == |Header| == RowWidth
  {
  }

  /** Each column of a data row holds what its header names. */
  lemma DataRowColumns(ethAccount: string, tx: Tx)
    requires Complete(tx)
    ensures var row := DataRow(ethAccount, tx);
      && row[EthAccountColumn] == ethAccount && Header[EthAccountColumn] == "Ethereum account"
      && row[UserIdColumn] == tx.userId && Header[UserIdColumn] == "Aztec userId"
      && row[TxIdColumn] == tx.txId.value && Header[TxIdColumn] == "txId"
      && row[CreatedColumn] == tx.created.value && Header[CreatedColumn] == "created"
      && row[SettledColumn] == tx.settled.value && Header[SettledColumn] == "settled"
      && row[TxTypeColumn] == TxTypeLabel(tx.proofId) && Header[TxTypeColumn] == "Tx Type"
  {
  }

  /** The four monetary columns are empty exactly for records that are not
      payments, and all four are non-empty exactly for payments; for a
      payment they hold the asset id, value, fee and sender
      flag, in the order of the header. */
  lemma MoneyColumnsByShape(ethAccount: string, tx: Tx)
    requires Complete(tx)
    ensures var row := DataRow(ethAccount, tx);
      && (tx.payment.None? <==> row[SenderColumn] == "")
      && (tx.payment.Some? <==>
            row[AssetIdColumn] != "" && row[ValueColumn] != "" && row[FeeColumn] != "" && row[SenderColumn] != "")
      && (tx.payment.None? ==> row[AssetIdColumn] == row[ValueColumn] == row[FeeColumn] == "")
      && (tx.payment.Some? ==>
            && row[AssetIdColumn] == tx.payment.value.assetId && Header[AssetIdColumn] == "AssetId"
            && row[ValueColumn] == tx.payment.value.value && Header[ValueColumn] == "Value"
            && row[FeeColumn] == tx.payment.value.fee && Header[FeeColumn] == "Fee"
            && row[SenderColumn] == BoolText(tx.payment.value.isSender) && Header[SenderColumn] == "Sender?")
  {
  }

  /** The type label depends on the proof id alone and the monetary columns
      on the payment alone: changing one leaves the other's columns as they
      were. */
  lemma DiscriminationsIndependent(ethAccount: string, tx: Tx, proofId: int, payment: Option<Payment>)
    requires Complete(tx)
    ensures DataRow(ethAccount, tx.(payment := payment))[TxTypeColumn] == DataRow(ethAccount, tx)[TxTypeColumn]
    ensures DataRow(ethAccount, tx.(proofId := proofId))[AssetIdColumn..] == DataRow(ethAccount, tx)[AssetIdColumn..]
  {
  }

  /** A deposit record that is not payment-shaped: labelled "Deposit" with
      four empty monetary columns. */
  lemma DepositWithoutPayment(ethAccount: string, tx: Tx)
    requires Complete(tx) && tx.proofId == 1 && tx.payment.None?
    ensures DataRow(ethAccount, tx)[TxTypeColumn..] == ["Deposit", "", "", "", ""]
  {
  }

  /** A sent payment of 100 units of asset 0 with a fee of 5. */
  lemma SendPayment(ethAccount: string, tx: Tx)
    requires Complete(tx) && tx.proofId == 3
    requires tx.payment == Some(Payment("100", "0", "5", true))
    ensures DataRow(ethAccount, tx)[TxTypeColumn..] == ["Send", "0", "100", "5", "true"]
  {
  }

  // ---------------------------------------------------------------------
  // The table
  // ---------------------------------------------------------------------

  /** The export fails exactly when some record lacks an unwrapped field;
      the proof id never makes it fail. */
  lemma ExportSucceedsIff(ethAccount: string, txs: seq<Tx>)
    ensures Export(ethAccount, txs).Success? <==> forall i | 0 <= i < |txs| :: Complete(txs[i])
  {
  }

  /** A failure names the first incomplete record and its first missing
      field. */
  lemma ExportFailure(ethAccount: string, txs: seq<Tx>, k: nat, f: Field)
    requires Export(ethAccount, txs) == Failure(UnwrapFailed(k, f))
    ensures k < |txs| && MissingField(txs[k]) == Some(f)
    ensures forall j | 0 <= j < k :: Complete(txs[j])
  {
  }

  /** The table holds one row more than there are records, the header
      first, then data row i built from record i, so record order is kept;
      every row has ten fields and every data row starts with the account. */
  lemma ExportShape(ethAccount: string, txs: seq<Tx>, rows: seq<Row>)
    requires Export(ethAccount, txs) == Success(rows)
    ensures |rows| == |txs| + 1 && rows[0] == Header
    ensures forall i | 0 <= i < |txs| :: Complete(txs[i]) && rows[i + 1] == DataRow(ethAccount, txs[i])
    ensures forall i | 0 <= i < |rows| :: |rows[i]| == RowWidth
    ensures forall i | 1 <= i < |rows| :: rows[i][EthAccountColumn] == ethAccount
  {
  }

  /** With no records the text is the prefix followed by the header line. */
  lemma EmptyExport(ethAccount: string)
    ensures ExportText(ethAccount, []) == Success(Csv.DataUriPrefix + Csv.Join(Header, Csv.FieldSeparator))
  {
    ExportSucceedsIff(ethAccount, []);
    var rows := Export(ethAccount, []).value;
    ExportShape(ethAccount, [], rows);
    assert rows == [Header];
    assert Csv.Lines([Header]) == [Csv.Join(Header, Csv.FieldSeparator)];
  }

  /** The sender column of every row of the table, header included, is
      "Sender?", "true", "false" or empty. */
  lemma SenderColumnValues(ethAccount: string, txs: seq<Tx>, rows: seq<Row>, k: nat)
    requires Export(ethAccount, txs) == Success(rows)
    requires k < |rows|
    ensures |rows[k]| == RowWidth
    ensures var sender := rows[k][SenderColumn];
      sender == "Sender?" || sender == "true" || sender == "false" || sender == ""
  {
    ExportShape(ethAccount, txs, rows);
    if k > 0 {
      var tx := txs[k - 1];
      MoneyColumnsByShape(ethAccount, tx);
    }
  }

  /** Whatever the field values, a successful export does not end with a
      newline: its last line is the last row, whose last field is the
      sender column, and a join adds nothing after its last part. */
  lemma NoTrailingNewline(ethAccount: string, txs: seq<Tx>, text: string)
    requires ExportText(ethAccount, txs) == Success(text)
    ensures |text| >= 1 && text[|text| - 1] != Csv.RowSeparator
  {
    var rows := Export(ethAccount, txs).value;
    assert text == Csv.Serialize(rows);
    var row := rows[|rows| - 1];
    SenderColumnValues(ethAccount, txs, rows, |rows| - 1);
    var line := Csv.Join(row, Csv.FieldSeparator);
    Csv.JoinLastChar(row, Csv.FieldSeparator);
    assert |line| >= 1 && line[|line| - 1] != Csv.RowSeparator;
    Csv.SerializeEnd(rows);
    assert text[|text| - 1] == line[|line| - 1];
  }

  // ---------------------------------------------------------------------
  // Reading the text back
  // ---------------------------------------------------------------------

  /** The record a row can be read back into: unknown proof ids collapse to
      0, since they all share the empty label. */
  function Normalize(tx: Tx): Tx
  {
    tx.(proofId := if 1 <= tx.proofId <= 6 then tx.proofId else 0)
  }

  /** Reads the four monetary columns back: all empty for a record that is
      not a payment, otherwise three non-empty amounts and a sender flag of
      "true" or "false". */
  function DecodeMoney(assetId: string, value: string, fee: string, sender: string): Option<Option<Payment>>
  {
    if sender == "" && assetId == "" && value == "" && fee == "" then Some(None)
    else if (sender == "true" || sender == "false") && |assetId| > 0 && |value| > 0 && |fee| > 0 then
      Some(Some(Payment(value, assetId, fee, sender == "true")))
    else None
  }

  /** Reads one data row back into its account and record. */
  function DecodeRow(row: Row): Option<(string, Tx)>
  {
    if |row| != RowWidth then None
    else match DecodeMoney(row[AssetIdColumn], row[ValueColumn], row[FeeColumn], row[SenderColumn])
      case None => None
      case Some(payment) =>
        Some((row[EthAccountColumn],
              Tx(ProofIdOfLabel(row[TxTypeColumn]), row[UserIdColumn],
                 Some(row[TxIdColumn]), Some(row[CreatedColumn]), Some(row[SettledColumn]), payment)))
  }

  /** Reads every data row back, or nothing if one of them cannot be read. */
  function DecodeRows(rows: seq<Row>): Option<seq<(string, Tx)>>
  {
    if |rows| == 0 then Some([])
    else match (DecodeRow(rows[0]), DecodeRows(rows[1..]))
      case (Some(r), Some(rs)) => Some([r] + rs)
      case _ => None
  }

  /** Reads an exported text back: prefix, header line, then data rows. */
  function Import(text: string): Option<seq<(string, Tx)>>
  {
    match Csv.Parse(text)
    case None => None
    case Some(table) =>
      if |table| >= 1 && table[0] == Header then DecodeRows(table[1..]) else None
  }

  /** Every rendered value of a record can pass through the unescaped
      format: none holds a comma or a newline. */
  predicate CleanRecord(tx: Tx)
  {
    && Csv.CleanField(tx.userId)
    && (tx.txId.Some? ==> Csv.CleanField(tx.txId.value))
    && (tx.created.Some? ==> Csv.CleanField(tx.created.value))
    && (tx.settled.Some? ==> Csv.CleanField(tx.settled.value))
    && (tx.payment.Some? ==>
          && Csv.CleanField(tx.payment.value.value)
          && Csv.CleanField(tx.payment.value.assetId)
          && Csv.CleanField(tx.payment.value.fee))
  }

  /** A data row reads back as its account and the record, up to unknown
      proof ids. */
  lemma DecodeDataRow(ethAccount: string, tx: Tx)
    requires Complete(tx)
    ensures DecodeRow(DataRow(ethAccount, tx)) == Some((ethAccount, Normalize(tx)))
  {
    LabelRoundTrip(tx.proofId);
  }

  /** Rows that each read back read back together, in order. */
  lemma {:induction false} DecodeRowsEach(rows: seq<Row>, decoded: seq<(string, Tx)>)
    requires |rows| == |decoded|
    requires forall i | 0 <= i < |rows| :: DecodeRow(rows[i]) == Some(decoded[i])
    ensures DecodeRows(rows) == Some(decoded)
  {
    if |rows| > 0 {
      DecodeRowsEach(rows[1..], decoded[1..]);
      assert [decoded[0]] + decoded[1..] == decoded;
    }
  }

  /** No header name holds a comma or a newline. */
  lemma HeaderClean()
    ensures forall j | 0 <= j < |Header| :: Csv.CleanField(Header[j])
  {
    assert Csv.CleanField("Ethereum account");
    assert Csv.CleanField("Aztec userId");
    assert Csv.CleanField("Tx Type");
  }

  /** The row of a clean record under a clean account holds no comma or
      newline. */
  lemma DataRowClean(ethAccount: string, tx: Tx)
    requires Complete(tx) && Csv.CleanField(ethAccount) && CleanRecord(tx)
    ensures forall j | 0 <= j < |DataRow(ethAccount, tx)| :: Csv.CleanField(DataRow(ethAccount, tx)[j])
  {
    var row := DataRow(ethAccount, tx);
    assert Csv.CleanField(TxTypeLabel(tx.proofId));
    assert Csv.CleanField("true") && Csv.CleanField("false") && Csv.CleanField("");
    assert forall j | 0 <= j < |row| :: row[j] in {ethAccount, tx.userId, tx.txId.value, tx.created.value,
      tx.settled.value, TxTypeLabel(tx.proofId)} + (set k | 0 <= k < 4 :: MoneyColumns(tx.payment)[k]);
  }

  /** The table of clean records is clean as a whole. */
  lemma ExportTableClean(ethAccount: string, txs: seq<Tx>, rows: seq<Row>)
    requires Export(ethAccount, txs) == Success(rows)
    requires Csv.CleanField(ethAccount)
    requires forall i | 0 <= i < |txs| :: CleanRecord(txs[i])
    ensures Csv.CleanTable(rows)
  {
    ExportShape(ethAccount, txs, rows);
    HeaderClean();
    forall k | 1 <= k < |rows|
      ensures forall j | 0 <= j < |rows[k]| :: Csv.CleanField(rows[k][j])
    {
      DataRowClean(ethAccount, txs[k - 1]);
    }
  }

  /** When no rendered value holds a comma or a newline, reading the
      exported text back recovers, in order, the account and every record
      (up to unknown proof ids). */
  lemma ExportImportRoundTrip(ethAccount: string, txs: seq<Tx>, text: string)
    requires ExportText(ethAccount, txs) == Success(text)
    requires Csv.CleanField(ethAccount)
    requires forall i | 0 <= i < |txs| :: CleanRecord(txs[i])
    ensures Import(text) == Some(seq(|txs|, i requires 0 <= i < |txs| => (ethAccount, Normalize(txs[i]))))
  {
    var rows := Export(ethAccount, txs).value;
    ExportShape(ethAccount, txs, rows);
    ExportTableClean(ethAccount, txs, rows);
    Csv.ParseSerialize(rows);
    var decoded := seq(|txs|, i requires 0 <= i < |txs| => (ethAccount, Normalize(txs[i])));
    forall i | 0 <= i < |txs|
      ensures DecodeRow(rows[1..][i]) == Some(decoded[i])
    {
      DecodeDataRow(ethAccount, txs[i]);
    }
    DecodeRowsEach(rows[1..], decoded);
  }

  /** The exported text of a clean table has one newline per record: one
      between each pair of rows and none at the end. */
  lemma ExportTextNewlines(ethAccount: string, txs: seq<Tx>, text: string)
    requires ExportText(ethAccount, txs) == Success(text)
    requires Csv.CleanField(ethAccount)
    requires forall i | 0 <= i < |txs| :: CleanRecord(txs[i])
    ensures Csv.Occurrences(text, Csv.RowSeparator) == |txs|
  {
    var rows := Export(ethAccount, txs).value;
    ExportShape(ethAccount, txs, rows);
    ExportTableClean(ethAccount, txs, rows);
    Csv.SerializeNewlines(rows);
  }
}
