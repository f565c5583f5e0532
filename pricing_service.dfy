/**
 * The two steps of the pricing oracle's service that shape its data: building
 * and signing a pricing record before it is stored, and turning the newest
 * stored row into the response sent to a client.
 *
 * The price values are the `toFixed(0)` strings of floating-point products
 * and stay opaque here; `stringify` stands for `JSON.stringify` and `sign` for
 * the Node signer with the oracle's private key, both uninterpreted.
 */
module PricingService {
  import opened Wrappers
  import opened Js
  import opened Hex
  import opened SignatureCodec

  /** A value held by a JavaScript object or a database row. */
  datatype Value = Undefined | Number(n: int) | Text(s: string) | Object(fields: map<string, Value>)

  /** A database row, or any plain object: property names to values. */
  type Row = map<string, Value>

  /** `obj[key]`: a missing property reads as undefined. */
  function Get(row: Row, key: string): (v: Value)
    ensures key !in row ==> v == Undefined
    ensures key in row ==> v == row[key]
  {
    if key in row then row[key] else Undefined
  }

  // ---------------------------------------------------------------------------
  // The response to a request (src/app3.js:206-213)
  // ---------------------------------------------------------------------------

  /**
   * The handler's `.then` callback on the rows of
   * `SELECT *, UNIX_TIMESTAMP(Timestamp) AS UT ... LIMIT 1`: the first row,
   * with `Signature` renamed to `signature` and `UT` to `timestamp`, and with
   * `Signature`, `Timestamp` and `UT` deleted, wrapped as `{"pr": row}`. With
   * no row, `result[0]` is undefined, the assignment throws and nothing is
   * answered (None).
   */
  method RespondWithLatest(rows: seq<Row>) returns (response: Option<Row>)
    ensures response.None? <==> rows == []
    ensures rows != [] ==>
      && response.value.Keys == {"pr"} && response.value["pr"].Object?
      && var pr, row := response.value["pr"].fields, rows[0];
      && pr.Keys == row.Keys - {"Signature", "Timestamp", "UT"} + {"signature", "timestamp"}
      && pr["signature"] == Get(row, "Signature")
      && pr["timestamp"] == Get(row, "UT")
      && forall key :: key in row && key !in {"Signature", "Timestamp", "UT", "signature", "timestamp"} ==>
           key in pr && pr[key] == row[key]
  {
    if |rows| == 0 {
      return None;
    }
    var row := rows[0];
    row := row["signature" := Get(row, "Signature")];
    row := row["timestamp" := Get(row, "UT")];
    row := row - {"Signature"};
    row := row - {"Timestamp"};
    row := row - {"UT"};
    response := Some(map["pr" := Object(row)]);
  }

  // ---------------------------------------------------------------------------
  // Building, signing and storing a pricing record (src/app3.js:147-170)
  // ---------------------------------------------------------------------------

  /** The object `pr_out`, its properties in the order they are written. */
  datatype PricingRecord = PricingRecord(
    xAG: Value, xAU: Value, xAUD: Value, xBTC: Value, xCAD: Value, xCHF: Value, xCNY: Value,
    xEUR: Value, xGBP: Value, xJPY: Value, xNOK: Value, xNZD: Value, xUSD: Value,
    MA1: Value, MA2: Value, MA3: Value, signature: Value)

  /** The 32 NUL characters `signature` holds while the record is signed. */
  const Placeholder: string := "\0\0\0\0\0\0\0\0\0\0\0\0\0\0\0\0\0\0\0\0\0\0\0\0\0\0\0\0\0\0\0\0"

  /** The columns of the PricingRecord table the INSERT statement fills. */
  datatype ColumnName =
    | XAG | XAU | XAUD | XBTC | XCAD | XCHF | XCNY | XEUR | XGBP | XJPY | XNOK | XNZD | XUSD
    | Unused1 | Unused2 | Unused3 | SignatureColumn

  /** The columns named by the INSERT statement, in the order they are listed. */
  const InsertColumns: seq<ColumnName> :=
    [XAG, XAU, XAUD, XBTC, XCAD, XCHF, XCNY, XEUR, XGBP, XJPY, XNOK, XNZD, XUSD,
     Unused1, Unused2, Unused3, SignatureColumn]

  /** The column list names every column once. */
  lemma {:induction false} InsertColumnsListed(c: ColumnName)
    ensures c in InsertColumns
    ensures forall i, j :: 0 <= i < j < |InsertColumns| ==> InsertColumns[i] != InsertColumns[j]
  {
    match c
    case XAG => assert InsertColumns[0] == c;
    case XAU => assert InsertColumns[1] == c;
    case XAUD => assert InsertColumns[2] == c;
    case XBTC => assert InsertColumns[3] == c;
    case XCAD => assert InsertColumns[4] == c;
    case XCHF => assert InsertColumns[5] == c;
    case XCNY => assert InsertColumns[6] == c;
    case XEUR => assert InsertColumns[7] == c;
    case XGBP => assert InsertColumns[8] == c;
    case XJPY => assert InsertColumns[9] == c;
    case XNOK => assert InsertColumns[10] == c;
    case XNZD => assert InsertColumns[11] == c;
    case XUSD => assert InsertColumns[12] == c;
    case Unused1 => assert InsertColumns[13] == c;
    case Unused2 => assert InsertColumns[14] == c;
    case Unused3 => assert InsertColumns[15] == c;
    case SignatureColumn => assert InsertColumns[16] == c;
  }

  /**
   * The template of a record: the thirteen scaled prices (xAG, xAU, then the
   * fiat and BTC rates in ticker order), the three moving averages at 0 and
   * the placeholder signature.
   */
  function Template(prices: seq<string>): (t: PricingRecord)
    requires |prices| == 13
    ensures t.MA1 == t.MA2 == t.MA3 == Number(0) && t.signature == Text(Placeholder)
    ensures forall i :: 0 <= i < 13 ==> Column(t, InsertColumns[i]) == Text(prices[i])
  {
    PricingRecord(
      Text(prices[0]), Text(prices[1]), Text(prices[2]), Text(prices[3]), Text(prices[4]),
      Text(prices[5]), Text(prices[6]), Text(prices[7]), Text(prices[8]), Text(prices[9]),
      Text(prices[10]), Text(prices[11]), Text(prices[12]),
      Number(0), Number(0), Number(0), Text(Placeholder))
  }

  /** What `signature_to_rs` returns, as a property value: the hex string, or the number -1 or -2. */
  function SignatureValue(res: Result<string, DecodeError>): (v: Value)
    ensures res.Success? <==> v.Text?
    ensures res.Success? ==> v.s == res.value
    ensures res.Failure? ==> v == Number(ErrorCode(res.error)) && v.n < 0
  {
    match res
    case Success(hex) => Text(hex)
    case Failure(e) => Number(ErrorCode(e))
  }

  /**
   * The property of the record a column is filled from: the moving averages
   * go to the unused columns and `signature` to Signature.
   */
  function Column(r: PricingRecord, column: ColumnName): Value
  {
    match column
    case XAG => r.xAG
    case XAU => r.xAU
    case XAUD => r.xAUD
    case XBTC => r.xBTC
    case XCAD => r.xCAD
    case XCHF => r.xCHF
    case XCNY => r.xCNY
    case XEUR => r.xEUR
    case XGBP => r.xGBP
    case XJPY => r.xJPY
    case XNOK => r.xNOK
    case XNZD => r.xNZD
    case XUSD => r.xUSD
    case Unused1 => r.MA1
    case Unused2 => r.MA2
    case Unused3 => r.MA3
    case SignatureColumn => r.signature
  }

  /** The properties of a record in the order the object literal writes them. */
  function Fields(r: PricingRecord): (f: seq<Value>)
    ensures |f| == |InsertColumns|
  {
    [r.xAG, r.xAU, r.xAUD, r.xBTC, r.xCAD, r.xCHF, r.xCNY, r.xEUR, r.xGBP, r.xJPY, r.xNOK, r.xNZD, r.xUSD,
     r.MA1, r.MA2, r.MA3, r.signature]
  }

  /** The column list and the object literal agree: the i-th column is filled from the i-th property. */
  lemma {:induction false} ColumnsOfFields(r: PricingRecord)
    ensures forall i :: 0 <= i < |InsertColumns| ==> Column(r, InsertColumns[i]) == Fields(r)[i]
  {
    var cs, f := InsertColumns, Fields(r);
    forall i | 0 <= i < |cs|
      ensures Column(r, cs[i]) == f[i]
    {
      if i == 0 {
        assert cs[0] == XAG && f[0] == r.xAG;
      } else if i == 1 {
        assert cs[1] == XAU && f[1] == r.xAU;
      } else if i == 2 {
        assert cs[2] == XAUD && f[2] == r.xAUD;
      } else if i == 3 {
        assert cs[3] == XBTC && f[3] == r.xBTC;
      } else if i == 4 {
        assert cs[4] == XCAD && f[4] == r.xCAD;
      } else if i == 5 {
        assert cs[5] == XCHF && f[5] == r.xCHF;
      } else if i == 6 {
        assert cs[6] == XCNY && f[6] == r.xCNY;
      } else if i == 7 {
        assert cs[7] == XEUR && f[7] == r.xEUR;
      } else if i == 8 {
        assert cs[8] == XGBP && f[8] == r.xGBP;
      } else if i == 9 {
        assert cs[9] == XJPY && f[9] == r.xJPY;
      } else if i == 10 {
        assert cs[10] == XNOK && f[10] == r.xNOK;
      } else if i == 11 {
        assert cs[11] == XNZD && f[11] == r.xNZD;
      } else if i == 12 {
        assert cs[12] == XUSD && f[12] == r.xUSD;
      } else if i == 13 {
        assert cs[13] == Unused1 && f[13] == r.MA1;
      } else if i == 14 {
        assert cs[14] == Unused2 && f[14] == r.MA2;
      } else if i == 15 {
        assert cs[15] == Unused3 && f[15] == r.MA3;
      } else {
        assert cs[16] == SignatureColumn && f[16] == r.signature;
      }
    }
  }

  /**
   * getData from the prices on: the template is stringified and signed, the
   * compact signature (or the error code) replaces the placeholder and nothing
   * else, and the INSERT values are listed column by column.
   */
  method AssembleRecord(prices: seq<string>, stringify: PricingRecord -> string, sign: string -> seq<Byte>)
    returns (prOut: PricingRecord, values: seq<Value>)
    requires |prices| == 13
    ensures var signed := GetSignature(stringify(Template(prices)), sign);
      prOut == Template(prices).(signature := SignatureValue(signed))
    ensures var der := sign(stringify(Template(prices)));
      IsCanonicalSignature(der) && IsFullWidth(der) ==>
        prOut.signature.Text? && |prOut.signature.s| == 128 && IsLowerHex(prOut.signature.s)
    ensures var der := sign(stringify(Template(prices)));
      IsCanonicalSignature(der) && !IsFullWidth(der) ==>
        prOut.signature.Text? && |prOut.signature.s| < 128
    ensures |values| == |InsertColumns|
    ensures forall i :: 0 <= i < |InsertColumns| ==> values[i] == Column(prOut, InsertColumns[i])
  {
    prOut := Template(prices);
    var signature := GetSignature(stringify(prOut), sign);
    prOut := prOut.(signature := SignatureValue(signature));
    values := [prOut.xAG, prOut.xAU, prOut.xAUD, prOut.xBTC, prOut.xCAD, prOut.xCHF, prOut.xCNY,
               prOut.xEUR, prOut.xGBP, prOut.xJPY, prOut.xNOK, prOut.xNZD, prOut.xUSD,
               prOut.MA1, prOut.MA2, prOut.MA3, prOut.signature];
    assert values == Fields(prOut);
    ColumnsOfFields(prOut);
  }
}
