/**
 * The country lookup of the currency conversion service: a fixed table from
 * country code to currency, and the first steps of the conversion handler,
 * which decode the request, upper-case the country code and look it up
 * before any exchange rate is fetched.
 */
module Currency {
  import opened Wrappers

  /** A currency as the table lists it: its ISO code and its display name. */
  datatype CurrencyInfo = CurrencyInfo(code: string, name: string)

  /** The fixed country table. */
  const CountryToCurrency: map<string, CurrencyInfo> := map[
    "US" := CurrencyInfo("USD", "United States Dollar"),
    "IN" := CurrencyInfo("INR", "Indian Rupee"),
    "GB" := CurrencyInfo("GBP", "British Pound"),
    "EU" := CurrencyInfo("EUR", "Euro"),
    "JP" := CurrencyInfo("JPY", "Japanese Yen")
  ]

  /** The three results of the lookup: currency code, currency name and an error. */
  datatype Lookup = Lookup(code: string, name: string, err: Option<string>)

  /** Exact-match lookup of a country code in the table. */
  function GetCurrencyForCountry(countryCode: string): (r: Lookup)
    ensures r.err.None? <==> countryCode in CountryToCurrency
    ensures r.err.None? ==> CountryToCurrency[countryCode] == CurrencyInfo(r.code, r.name)
    ensures r.err.Some? ==> r == Lookup("", "", Some("unsupported country"))
  {
    if countryCode in CountryToCurrency then
      var val := CountryToCurrency[countryCode];
      Lookup(val.code, val.name, None)
    else
      Lookup("", "", Some("unsupported country"))
  }

  /** Exactly five codes are supported, and each yields its own table entry. */
  lemma SupportedCountries(countryCode: string)
    ensures GetCurrencyForCountry(countryCode).err.None? <==>
              countryCode == "US" || countryCode == "IN" || countryCode == "GB" ||
              countryCode == "EU" || countryCode == "JP"
    ensures GetCurrencyForCountry("US") == Lookup("USD", "United States Dollar", None)
    ensures GetCurrencyForCountry("IN") == Lookup("INR", "Indian Rupee", None)
    ensures GetCurrencyForCountry("GB") == Lookup("GBP", "British Pound", None)
    ensures GetCurrencyForCountry("EU") == Lookup("EUR", "Euro", None)
    ensures GetCurrencyForCountry("JP") == Lookup("JPY", "Japanese Yen", None)
  {
  }

  /** The match is exact: a lower-case code is refused when passed directly. */
  lemma LowerCaseRefused()
    ensures GetCurrencyForCountry("us") == Lookup("", "", Some("unsupported country"))
    ensures GetCurrencyForCountry("jp").err.Some?
  {
  }

  /**
   * Go's `unicode.ToUpper` on one character, for every character whose upper
   * case is ASCII: the letters a-z, the dotless i (U+0131) and the long s
   * (U+017F). Every other character is left as it is.
   */
  function ToUpperChar(c: char): char {
    if 'a' <= c <= 'z' then (c as int - 32) as char
    else if c == '\U{0131}' then 'I'
    else if c == '\U{017F}' then 'S'
    else c
  }

  /** `strings.ToUpper`: upper-cases each character in place. */
  function ToUpper(s: string): (r: string)
    ensures |r| == |s|
    ensures forall k :: 0 <= k < |s| ==> r[k] == ToUpperChar(s[k])
    decreases |s|
  {
    if s == "" then "" else [ToUpperChar(s[0])] + ToUpper(s[1..])
  }

  /** Upper-casing twice is upper-casing once. */
  lemma ToUpperIdempotent(s: string)
    ensures ToUpper(ToUpper(s)) == ToUpper(s)
  {
    assert forall k :: 0 <= k < |s| ==> ToUpperChar(ToUpperChar(s[k])) == ToUpperChar(s[k]);
  }

  /** A string without lower-case letters, such as every table key, is its own upper case. */
  lemma ToUpperKeys(countryCode: string)
    requires countryCode in CountryToCurrency
    ensures ToUpper(countryCode) == countryCode
  {
  }

  /** The decoded body of a conversion request. */
  datatype ConvertRequest = ConvertRequest(amount: real, countryCode: string)

  /**
   * What the handler goes on to do once the country is resolved: fetch the
   * USD rate for `currencyCode`, multiply `amount` by it, and save the
   * conversion under the upper-cased `countryCode`.
   */
  datatype RateRequest = RateRequest(amount: real, countryCode: string, currencyCode: string, currencyName: string)

  /**
   * The conversion handler up to the call of the rate fetcher. `req` is None
   * when the JSON body does not decode. Status 400 results end the request
   * here, so no rate is fetched and nothing is saved.
   */
  function ConvertCurrencyHandler(req: Option<ConvertRequest>): (r: Response<RateRequest>)
    ensures req.None? ==> r == BadRequest("Invalid request")
    ensures req.Some? ==> (r.Ok? <==> ToUpper(req.value.countryCode) in CountryToCurrency)
    ensures req.Some? && !r.Ok? ==> r == BadRequest("Unsupported country code")
    ensures r.Ok? ==> req.Some? && r.body.amount == req.value.amount
    ensures r.Ok? ==> r.body.countryCode == ToUpper(req.value.countryCode)
    ensures r.Ok? ==> CountryToCurrency[r.body.countryCode] == CurrencyInfo(r.body.currencyCode, r.body.currencyName)
  {
    match req
    case None => BadRequest("Invalid request")
    case Some(q) =>
      var countryCode := ToUpper(q.countryCode);
      var lookup := GetCurrencyForCountry(countryCode);
      if lookup.err.Some? then BadRequest("Unsupported country code")
      else Ok(RateRequest(q.amount, countryCode, lookup.code, lookup.name))
  }

  /** Country codes that differ only in case are handled alike. */
  lemma HandlerIgnoresCase(amount: real, countryCode: string)
    ensures ConvertCurrencyHandler(Some(ConvertRequest(amount, countryCode))) ==
            ConvertCurrencyHandler(Some(ConvertRequest(amount, ToUpper(countryCode))))
  {
    ToUpperIdempotent(countryCode);
  }

  /** Examples: lower-case and mixed-case codes reach the rate fetch with the right currency. */
  lemma HandlerExamples(amount: real)
    ensures ConvertCurrencyHandler(Some(ConvertRequest(amount, "us"))) ==
            Ok(RateRequest(amount, "US", "USD", "United States Dollar"))
    ensures ConvertCurrencyHandler(Some(ConvertRequest(amount, "jP"))) ==
            Ok(RateRequest(amount, "JP", "JPY", "Japanese Yen"))
    ensures ConvertCurrencyHandler(Some(ConvertRequest(amount, "u\U{017F}"))) ==
            Ok(RateRequest(amount, "US", "USD", "United States Dollar"))
    ensures ConvertCurrencyHandler(Some(ConvertRequest(amount, "usa"))) ==
            BadRequest("Unsupported country code")
  {
    assert ToUpper("us") == "US";
    assert ToUpper("jP") == "JP";
    assert ToUpper("u\U{017F}") == "US";
    assert ToUpper("usa") == "USA";
  }
}
