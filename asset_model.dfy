/**
 * The `Asset` table as declared in backend/modules/asset.model.js, with the
 * association columns of backend/models/index.js, and the checks that
 * `Asset.create` (Sequelize validation followed by the MySQL insert) applies
 * before a row is stored.
 */
module AssetModel {
  import opened Results

  /** The closed `status` enum, in declaration order. */
  datatype Status = Available | Assigned | Maintenance | Retired

  /** The string stored in the `status` column. */
  function StatusName(s: Status): string {
    match s
    case Available => "available"
    case Assigned => "assigned"
    case Maintenance => "maintenance"
    case Retired => "retired"
  }

  /** Reads a `status` value; anything outside the enum is refused. */
  function ParseStatus(t: string): (r: Option<Status>)
    ensures r.Some? ==> StatusName(r.value) == t
    ensures r.None? ==> forall s: Status :: StatusName(s) != t
  {
    if t == "available" then Some(Available)
    else if t == "assigned" then Some(Assigned)
    else if t == "maintenance" then Some(Maintenance)
    else if t == "retired" then Some(Retired)
    else None
  }

  /** Every status name reads back as that status. */
  lemma ParseStatusName(s: Status)
    ensures ParseStatus(StatusName(s)) == Some(s)
  {
  }

  /** 1-based position in the enum declaration; MySQL orders an ENUM column by it. */
  function StatusIndex(s: Status): nat {
    match s
    case Available => 1
    case Assigned => 2
    case Maintenance => 3
    case Retired => 4
  }

  /** Default of the `status` column. */
  const DefaultStatus: Status := Available

  /** `DataTypes.STRING` is `VARCHAR(255)`. */
  const MaxStringLength: nat := 255

  /**
   * `DECIMAL(10,2)` holds ten digits, two of them after the point, so an
   * amount in cents must be strictly below 10^10 in absolute value.
   */
  const CentsBound: int := 10_000_000_000

  predicate FitsDecimal10_2(cents: int) {
    -CentsBound < cents < CentsBound
  }

  predicate FitsString(s: string) {
    |s| <= MaxStringLength
  }

  predicate FitsOptionalString(s: Option<string>) {
    s.Some? ==> FitsString(s.value)
  }

  /**
   * A stored asset row. `asset_name` and `asset_number` are NOT NULL, so they
   * are plain strings; the nullable columns are options. `purchase_cost` is
   * in cents, `purchase_date` a timestamp. `CategoryId` and `EmployeeId` are
   * the nullable foreign keys of `Asset.belongsTo(Category)` and
   * `Asset.belongsTo(Employee)`.
   */
  datatype Asset = Asset(
    id: nat,
    name: string,
    number: string,
    description: Option<string>,
    purchaseDate: Option<int>,
    purchaseCost: Option<int>,
    status: Status,
    location: Option<string>,
    categoryId: Option<nat>,
    employeeId: Option<nat>)

  /** A row of `AssetHistory`; `assetId` is the key of `AssetHistory.belongsTo(Asset)`. */
  datatype HistoryEntry = HistoryEntry(
    id: nat,
    assetId: nat,
    action: string,
    description: string,
    date: int,
    performedBy: nat)

  /** A row of `Attachment`; `assetId` is the key of `Attachment.belongsTo(Asset)`. */
  datatype Attachment = Attachment(id: nat, assetId: nat, fileName: string, filePath: string)

  /** The column constraints every stored row satisfies. */
  predicate ValidAsset(a: Asset) {
    FitsString(a.name) && FitsString(a.number) && FitsOptionalString(a.location)
    && (a.purchaseCost.Some? ==> FitsDecimal10_2(a.purchaseCost.value))
  }

  /** The `unique: true` constraint on `asset_number`. */
  ghost predicate UniqueNumbers(table: seq<Asset>) {
    forall i, j :: 0 <= i < j < |table| ==> table[i].number != table[j].number
  }

  predicate NumberTaken(table: seq<Asset>, number: string) {
    exists i :: 0 <= i < |table| && table[i].number == number
  }

  /**
   * The attributes of a create request. `None` is an attribute the request
   * leaves out; `status` is still text, as it arrives.
   */
  datatype AssetInput = AssetInput(
    name: Option<string>,
    number: Option<string>,
    description: Option<string>,
    purchaseDate: Option<int>,
    purchaseCost: Option<int>,
    status: Option<string>,
    location: Option<string>,
    categoryId: Option<nat>,
    employeeId: Option<nat>)

  datatype CreateError =
    | NameMissing      // notNull violation on asset_name
    | NumberMissing    // notNull violation on asset_number
    | InvalidStatus    // value outside the ENUM
    | StringTooLong    // longer than VARCHAR(255)
    | CostOutOfRange   // does not fit DECIMAL(10,2)
    | DuplicateNumber  // unique violation on asset_number

  /** The request satisfies every column constraint that does not look at other rows. */
  predicate WellFormed(input: AssetInput) {
    input.name.Some? && input.number.Some?
    && (input.status.Some? ==> ParseStatus(input.status.value).Some?)
    && FitsString(input.name.value) && FitsString(input.number.value)
    && FitsOptionalString(input.location)
    && (input.purchaseCost.Some? ==> FitsDecimal10_2(input.purchaseCost.value))
  }

  /** The stored row carries exactly the attributes the request supplied, and the default status when it supplied none. */
  predicate Conforms(input: AssetInput, a: Asset) {
    input.name == Some(a.name) && input.number == Some(a.number)
    && a.description == input.description && a.purchaseDate == input.purchaseDate
    && a.purchaseCost == input.purchaseCost && a.location == input.location
    && a.categoryId == input.categoryId && a.employeeId == input.employeeId
    && (input.status.None? ==> a.status == DefaultStatus)
    && (input.status.Some? ==> StatusName(a.status) == input.status.value)
  }

  /**
   * `Asset.create(req.body)` against the rows already in `table`: the row it
   * would store under the next auto-increment key `id`, or the error that
   * stops it. A missing NOT NULL attribute is caught by validation before
   * the insert; the others are refused by the database.
   */
  function Admit(input: AssetInput, table: seq<Asset>, id: nat): (r: Result<Asset, CreateError>)
    ensures r.Ok? <==> WellFormed(input) && !NumberTaken(table, input.number.value)
    ensures r.Ok? ==> ValidAsset(r.value) && Conforms(input, r.value) && r.value.id == id
    ensures r.Ok? ==> !NumberTaken(table, r.value.number)
    ensures r == Err(NameMissing) <==> input.name.None?
    ensures r == Err(NumberMissing) <==> input.name.Some? && input.number.None?
    ensures r == Err(InvalidStatus) <==>
              input.name.Some? && input.number.Some?
              && input.status.Some? && ParseStatus(input.status.value).None?
    ensures r == Err(StringTooLong) <==>
              input.name.Some? && input.number.Some?
              && (input.status.Some? ==> ParseStatus(input.status.value).Some?)
              && !(FitsString(input.name.value) && FitsString(input.number.value) && FitsOptionalString(input.location))
    ensures r == Err(CostOutOfRange) <==>
              input.name.Some? && input.number.Some?
              && (input.status.Some? ==> ParseStatus(input.status.value).Some?)
              && FitsString(input.name.value) && FitsString(input.number.value) && FitsOptionalString(input.location)
              && input.purchaseCost.Some? && !FitsDecimal10_2(input.purchaseCost.value)
    ensures r == Err(DuplicateNumber) <==> WellFormed(input) && NumberTaken(table, input.number.value)
  {
    if input.name.None? then Err(NameMissing)
    else if input.number.None? then Err(NumberMissing)
    else if input.status.Some? && ParseStatus(input.status.value).None? then Err(InvalidStatus)
    else if !FitsString(input.name.value) || !FitsString(input.number.value)
         || !FitsOptionalString(input.location) then Err(StringTooLong)
    else if input.purchaseCost.Some? && !FitsDecimal10_2(input.purchaseCost.value) then Err(CostOutOfRange)
    else if NumberTaken(table, input.number.value) then Err(DuplicateNumber)
    else
      var status := if input.status.None? then DefaultStatus else ParseStatus(input.status.value).value;
      Ok(Asset(id, input.name.value, input.number.value, input.description, input.purchaseDate,
               input.purchaseCost, status, input.location, input.categoryId, input.employeeId))
  }

  /** Inserting an asset number that is already stored is refused. */
  lemma DuplicateRefused(input: AssetInput, table: seq<Asset>, id: nat, k: nat)
    requires k < |table| && input.number == Some(table[k].number)
    ensures Admit(input, table, id).Err?
  {
  }

  /** A request that leaves the status out gets `available`. */
  lemma DefaultStatusApplied(input: AssetInput, table: seq<Asset>, id: nat)
    requires input.status.None? && Admit(input, table, id).Ok?
    ensures Admit(input, table, id).value.status == Available
  {
  }

  /** Appending a row whose number is not yet stored keeps the numbers unique. */
  lemma AppendKeepsUnique(table: seq<Asset>, a: Asset)
    requires UniqueNumbers(table) && !NumberTaken(table, a.number)
    ensures UniqueNumbers(table + [a])
  {
    var t := table + [a];
    forall i, j | 0 <= i < j < |t| ensures t[i].number != t[j].number {
      if j == |table| {
        assert t[i] == table[i];
      }
    }
  }

  /** Appending an admitted row keeps the numbers unique and every row valid. */
  lemma AdmitKeepsTableValid(input: AssetInput, table: seq<Asset>, id: nat)
    requires UniqueNumbers(table) && forall i :: 0 <= i < |table| ==> ValidAsset(table[i])
    requires Admit(input, table, id).Ok?
    ensures UniqueNumbers(table + [Admit(input, table, id).value])
    ensures forall i :: 0 <= i <= |table| ==> ValidAsset((table + [Admit(input, table, id).value])[i])
  {
    AppendKeepsUnique(table, Admit(input, table, id).value);
  }
}
