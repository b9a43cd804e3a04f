/**
  The scraper's records. In the program they are dictionaries; here each key
  the program ever writes is a field, and `None` stands for a key that is
  absent or holds Python's `None`. `dict.get` does tell those two apart (a
  missing key gives the default, a `None` value gives `None`), but every
  place the program reads an optional record key treats them alike: the SIC
  description through `if sic_desc else ''`, the state through
  `not investor.get('state')`, and the address is a string whenever present.
  Reading a details document, where the difference matters, keeps JSON
  `null` and absent apart (module `AdviserDetails`).
 */
module Records {
  import opened Strings

  /** One row of the company-tickers listing. */
  datatype Company = Company(cik: string, name: string, ticker: string)

  /** An investor record as `main` accumulates it. */
  datatype Investor = Investor(
    cik: string,
    name: string,
    ticker: Option<string>,
    secUrl: string,
    filingType: Option<string>,
    address: Option<string>,
    city: Option<string>,
    state: Option<string>,
    phone: Option<string>,
    sic: Option<string>,
    sicDescription: Option<string>,
    category: Option<string>)

  /** The six keys `get_adviser_details` returns. `address` is always a
      string; the others are copied from the JSON and may be `None`. */
  datatype Details = Details(
    address: string,
    city: Option<string>,
    state: Option<string>,
    phone: Option<string>,
    sic: Option<string>,
    sicDescription: Option<string>)

  const EdgarCompanyUrl := "https://www.sec.gov/cgi-bin/browse-edgar?action=getcompany&CIK="

  /** A fresh record with only the keys a candidate source fills in. */
  function NewInvestor(cik: string, name: string, ticker: Option<string>, secUrl: string, filingType: Option<string>): Investor {
    Investor(cik, name, ticker, secUrl, filingType, None, None, None, None, None, None, None)
  }
}
