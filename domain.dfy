/**
 * The record types the data-access layer accepts and returns, and the one
 * validation rule on input: a transaction amount may not be zero.
 * Timestamps are abstract ordered instants; the clock reading that fills a
 * default is passed in as `now`.
 */
module Domain {
  import opened Wrappers

  type Timestamp = int

  /** Input for creating a category; `description` is optional. */
  datatype CategoryCreate = CategoryCreate(name: string, description: Option<string>)

  /** A stored category: always carries its generated id and its creation time. */
  datatype Category = Category(id: int, name: string, description: Option<string>, createdAt: Timestamp)

  /** Input for creating a transaction; `categoryId` None means uncategorised. */
  datatype TransactionCreate = TransactionCreate(
    amount: real,
    description: Option<string>,
    date: Timestamp,
    categoryId: Option<int>)

  /** A stored transaction: always carries its generated id and its creation time. */
  datatype Transaction = Transaction(
    id: int,
    amount: real,
    description: Option<string>,
    date: Timestamp,
    categoryId: Option<int>,
    createdAt: Timestamp)

  /** A transaction together with the category it refers to, when that is known. */
  datatype TransactionWithCategory = TransactionWithCategory(transaction: Transaction, category: Option<Category>)

  datatype ValidationError = AmountIsZero

  /** The field validator on `amount`: rejects zero, passes every other value through. */
  function AmountMustBeNonzero(v: real): (r: Result<real, ValidationError>)
    ensures r.Failure? <==> v == 0.0
    ensures r.Failure? ==> r.error == AmountIsZero
    ensures r.Success? ==> r.value == v
  {
    if v == 0.0 then Failure(AmountIsZero) else Success(v)
  }

  /** Builds a category input; the description defaults to none. */
  function NewCategoryCreate(name: string, description: Option<string> := None): CategoryCreate
  {
    CategoryCreate(name, description)
  }

  /**
   * Builds and validates a transaction input. Omitted fields take their
   * defaults: no description, no category, and the date `now`.
   */
  function NewTransactionCreate(
    amount: real,
    now: Timestamp,
    description: Option<string> := None,
    date: Option<Timestamp> := None,
    categoryId: Option<int> := None): (r: Result<TransactionCreate, ValidationError>)
    ensures r.Failure? <==> amount == 0.0
    ensures r.Success? ==>
      && r.value.amount == amount
      && r.value.description == description
      && r.value.categoryId == categoryId
      && r.value.date == (if date.Some? then date.value else now)
  {
    match AmountMustBeNonzero(amount)
    case Failure(e) => Failure(e)
    case Success(v) => Success(TransactionCreate(v, description, if date.Some? then date.value else now, categoryId))
  }

  /** With only an amount given, a category input has no description, and a transaction input no description, no category and the current date. */
  lemma Defaults(name: string, amount: real, now: Timestamp)
    ensures NewCategoryCreate(name).description == None
    ensures amount != 0.0 ==> NewTransactionCreate(amount, now) == Success(TransactionCreate(amount, None, now, None))
    ensures NewTransactionCreate(0.0, now).Failure?
  {
  }

  /** Any nonzero amount, however small and of either sign, is accepted. */
  lemma SmallAmountsAccepted(now: Timestamp)
    ensures NewTransactionCreate(0.01, now).Success?
    ensures NewTransactionCreate(-0.01, now).Success?
    ensures NewTransactionCreate(-0.01, now).value.amount == -0.01
  {
  }
}
