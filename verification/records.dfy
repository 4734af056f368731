/** The rows of the three tables the labeling app reads and writes, the
    session it keeps for a logged-in user, and its fixed constants. */
module Records {

  /** Number of labels that make up one batch of work. */
  const BatchSize: nat := 30

  /** One marketplace listing of the dataset CSV, keyed by `photoUrl`.
      Every column is carried as the text the CSV holds. */
  datatype Item = Item(
    listingUrl: string,
    photoUrl: string,
    price: string,
    title: string,
    location: string,
    originCityList: string)

  /** One row of labels.csv: the listing copied at submission time, who
      labelled it, the image file name, the judgement and its timestamp. */
  datatype Label = Label(
    listingUrl: string,
    photoUrl: string,
    price: string,
    title: string,
    location: string,
    originCityList: string,
    email: string,
    company: string,
    imageFile: string,
    score: int,
    binaryFlag: string,
    timestamp: string)

  /** One row of users.csv. */
  datatype User = User(
    firstName: string,
    lastName: string,
    email: string,
    company: string,
    password: string)

  /** What the app keeps in its session state after a successful login. */
  datatype Session = Session(email: string, company: string)

  /** Why an operation on the tables produced no new table or session. */
  datatype Error =
    | EmailTaken           // "Email already registered."
    | InvalidCredentials   // "Invalid credentials"
    | CompanyExists        // "Company already exists"
    | MissingEmailColumn   // KeyError: the users frame has no columns
    | ColumnCountMismatch  // a 12-value row built against a column-less labels frame

  /** The range of the suspicion-score slider. */
  predicate ValidScore(score: int) {
    1 <= score <= 5
  }

  /** The two choices of the "likely stolen" radio button. */
  predicate ValidFlag(flag: string) {
    flag == "Yes" || flag == "No"
  }

  /** The listing columns of a label, i.e. the item it was made from. */
  function ItemOf(l: Label): Item {
    Item(l.listingUrl, l.photoUrl, l.price, l.title, l.location, l.originCityList)
  }
}
