/** The weather client of `weather_service.py`.

    `fetch_weather_data` picks one of three WeatherAPI.com endpoints from
    the Python truthiness of `date` and `forecast_days`, performs the GET,
    and turns a non-200 status or an unparseable body into an error
    object.  `get_weather_response` reads that JSON back and reshapes it by
    which top-level key is present.  The HTTP GET is the oracle `get`; the
    API key is the value of the `WEATHER_API_KEY` environment variable. */
module WeatherService {
  import opened Wrappers
  import opened Python
  import opened Json

  const BaseUrl: string := "http://api.weatherapi.com/v1"

  /** What `requests.get(url)` yields: the status code, the body text, and
      what `response.json()` returns (`None` when it raises ValueError). */
  datatype HttpResponse = HttpResponse(status: nat, text: string, body: Option<Json>)

  /** The three request shapes. */
  datatype WeatherRequest =
    | History(date: string)
    | Forecast(days: int)
    | Current

  // ---------------------------------------------------------------------
  // Request side

  /** `if date: ... elif forecast_days: ... else: ...` */
  function SelectRequest(date: Option<string>, forecastDays: Option<int>): (r: WeatherRequest)
    ensures r.History? <==> StrTruthy(date)
    ensures r.Forecast? <==> !StrTruthy(date) && IntTruthy(forecastDays)
    ensures r.Current? <==> !StrTruthy(date) && !IntTruthy(forecastDays)
    ensures r.History? ==> r.date == date.value
    ensures r.Forecast? ==> r.days == forecastDays.value
  {
    if StrTruthy(date) then History(date.value)
    else if IntTruthy(forecastDays) then Forecast(forecastDays.value)
    else Current
  }

  /** How an f-string renders the key: an unset variable is `None`. */
  function KeyText(key: Option<string>): string {
    match key
    case Some(k) => k
    case None => "None"
  }

  /** The query string every endpoint gets: the key and `lat,lon`. */
  function Query(key: Option<string>, latitude: string, longitude: string): string {
    "?key=" + KeyText(key) + "&q=" + latitude + "," + longitude
  }

  function RequestUrl(key: Option<string>, latitude: string, longitude: string, req: WeatherRequest): string {
    var query := Query(key, latitude, longitude);
    match req
    case History(d) => BaseUrl + "/history.json" + query + "&dt=" + d
    case Forecast(n) => BaseUrl + "/forecast.json" + query + "&days=" + IntToString(n)
    case Current => BaseUrl + "/current.json" + query
  }

  /** The URL `fetch_weather_data` requests.  A truthy `date` selects the
      history endpoint whatever `forecast_days` is; otherwise a truthy
      (non-zero) `forecast_days` selects the forecast endpoint; otherwise
      the current endpoint is asked with only the key and coordinates. */
  function WeatherUrl(latitude: string, longitude: string, date: Option<string>, forecastDays: Option<int>, key: Option<string>): (url: string)
    ensures StrTruthy(date) ==>
      url == BaseUrl + "/history.json" + Query(key, latitude, longitude) + "&dt=" + date.value
    ensures !StrTruthy(date) && IntTruthy(forecastDays) ==>
      url == BaseUrl + "/forecast.json" + Query(key, latitude, longitude) + "&days=" + IntToString(forecastDays.value)
    ensures !StrTruthy(date) && !IntTruthy(forecastDays) ==>
      url == BaseUrl + "/current.json" + Query(key, latitude, longitude)
  {
    RequestUrl(key, latitude, longitude, SelectRequest(date, forecastDays))
  }

  /** A truthy `date` makes `forecast_days` irrelevant. */
  lemma DateOverridesDays(latitude: string, longitude: string, date: Option<string>, d1: Option<int>, d2: Option<int>, key: Option<string>)
    requires StrTruthy(date)
    ensures WeatherUrl(latitude, longitude, date, d1, key) == WeatherUrl(latitude, longitude, date, d2, key)
  {
  }

  /** Falsy arguments are the same as absent ones: an empty date and zero
      forecast days both ask for the current weather. */
  lemma FalsyMeansCurrent(latitude: string, longitude: string, key: Option<string>)
    ensures WeatherUrl(latitude, longitude, Some(""), Some(0), key) == WeatherUrl(latitude, longitude, None, None, key)
    ensures WeatherUrl(latitude, longitude, None, None, key) == BaseUrl + "/current.json" + Query(key, latitude, longitude)
  {
  }

  // ---------------------------------------------------------------------
  // Fetch

  function StatusErrorPayload(status: nat, text: string): Json {
    Obj(map["error" := Str("API request failed with status code " + NatToString(status)), "details" := Str(text)])
  }

  const ParseErrorPayload: Json := Obj(map["error" := Str("Failed to parse JSON from Weather API response")])

  /** `fetch_weather_data(...)`, with `json.dumps` left out: the value it
      serialises.  A non-200 status gives the status error object, a body
      that is not JSON gives the parse error object, anything else is the
      decoded body as is. */
  function FetchWeatherData(latitude: string, longitude: string, date: Option<string>, forecastDays: Option<int>,
                            key: Option<string>, get: string -> HttpResponse): (data: Json)
    ensures var resp := get(WeatherUrl(latitude, longitude, date, forecastDays, key));
      && (resp.status != 200 ==> data == StatusErrorPayload(resp.status, resp.text))
      && (resp.status == 200 && resp.body.None? ==> data == ParseErrorPayload)
      && (resp.status == 200 && resp.body.Some? ==> data == resp.body.value)
  {
    var resp := get(WeatherUrl(latitude, longitude, date, forecastDays, key));
    if resp.status != 200 then StatusErrorPayload(resp.status, resp.text)
    else
      match resp.body
      case None => ParseErrorPayload
      case Some(v) => v
  }

  /** A 503 answered with the body `rate limited`. */
  lemma RateLimitedPayload()
    ensures StatusErrorPayload(503, "rate limited") ==
      Obj(map["error" := Str("API request failed with status code 503"), "details" := Str("rate limited")])
  {
    assert DigitChar(5) == '5' && DigitChar(0) == '0' && DigitChar(3) == '3';
    assert NatToString(5) == "5";
    assert NatToString(50) == "50";
    assert NatToString(503) == "503";
    assert "API request failed with status code " + "503" == "API request failed with status code 503";
  }

  // ---------------------------------------------------------------------
  // Response side

  const UnexpectedFormat: Json := Obj(map["error" := Str("Unexpected API response format")])

  /** `key in data` is true. */
  predicate Has(data: Json, key: string) {
    Contains(data, key) == Success(true)
  }

  /** The `current` branch: six keys, in Python's evaluation order; any
      missing or mistyped field raises. */
  function CurrentShape(data: Json, latitude: string, longitude: string): (r: Result<Json, PyError>)
    ensures r.Success? ==> (r.value.Obj? && r.value.fields.Keys ==
      {"latitude", "longitude", "temperature_c", "condition", "humidity", "wind_kph"})
    ensures r.Success? ==> r.value.fields["latitude"] == Str(latitude) && r.value.fields["longitude"] == Str(longitude)
    ensures r.Success? ==> Has(data, "current")
    ensures r.Success? <==>
      && Index(data, "current").Success?
      && var current := Index(data, "current").value;
         && Index(current, "temp_c").Success?
         && Index(current, "condition").Success?
         && Index(Index(current, "condition").value, "text").Success?
         && Index(current, "humidity").Success?
         && Index(current, "wind_kph").Success?
    ensures r.Success? ==>
      var current := Index(data, "current").value;
      && r.value.fields["temperature_c"] == Index(current, "temp_c").value
      && r.value.fields["condition"] == Index(Index(current, "condition").value, "text").value
      && r.value.fields["humidity"] == Index(current, "humidity").value
      && r.value.fields["wind_kph"] == Index(current, "wind_kph").value
  {
    var current :- Index(data, "current");
    var temp :- Index(current, "temp_c");
    var condition :- Index(current, "condition");
    var text :- Index(condition, "text");
    var humidity :- Index(current, "humidity");
    var wind :- Index(current, "wind_kph");
    Success(Obj(map[
      "latitude" := Str(latitude),
      "longitude" := Str(longitude),
      "temperature_c" := temp,
      "condition" := text,
      "humidity" := humidity,
      "wind_kph" := wind]))
  }

  /** One element of the `forecast` list comprehension. */
  function ForecastDay(day: Json): (r: Result<Json, PyError>)
    ensures r.Success? ==> r.value.Obj? && r.value.fields.Keys == {"date", "temperature_c", "condition"}
    ensures r.Success? ==> Index(day, "date") == Success(r.value.fields["date"])
    ensures r.Success? <==>
      && Index(day, "date").Success?
      && Index(day, "day").Success?
      && var d := Index(day, "day").value;
         && Index(d, "avgtemp_c").Success?
         && Index(d, "condition").Success?
         && Index(Index(d, "condition").value, "text").Success?
    ensures r.Success? ==>
      var d := Index(day, "day").value;
      && r.value.fields["temperature_c"] == Index(d, "avgtemp_c").value
      && r.value.fields["condition"] == Index(Index(d, "condition").value, "text").value
  {
    var date :- Index(day, "date");
    var d :- Index(day, "day");
    var temp :- Index(d, "avgtemp_c");
    var condition :- Index(d, "condition");
    var text :- Index(condition, "text");
    Success(Obj(map["date" := date, "temperature_c" := temp, "condition" := text]))
  }

  /** `[... for day in days[k:]]` over a list: one entry per day, in order,
      or the exception of the first day that raises. */
  function ForecastDaysFrom(days: seq<Json>, k: nat): (r: Result<seq<Json>, PyError>)
    requires k <= |days|
    ensures r.Success? <==> forall j :: k <= j < |days| ==> ForecastDay(days[j]).Success?
    ensures r.Success? ==> |r.value| == |days| - k
    ensures r.Success? ==> forall j :: 0 <= j < |r.value| ==> ForecastDay(days[k + j]) == Success(r.value[j])
    ensures r.Failure? ==> exists j :: k <= j < |days| && ForecastDay(days[j]) == Failure(r.error)
    decreases |days| - k
  {
    if k == |days| then Success([])
    else
      var entry :- ForecastDay(days[k]);
      var rest :- ForecastDaysFrom(days, k + 1);
      Success([entry] + rest)
  }

  /** The comprehension over `data["forecast"]["forecastday"]`, whatever
      JSON value that is.  Iterating a dict yields its (str) keys and
      iterating a str yields one-character strs; either way the first
      element's `["date"]` raises TypeError, so only an empty dict or str
      gets through.  Other scalars are not iterable. */
  function IterateForecast(forecast: Json): (r: Result<seq<Json>, PyError>)
    ensures r.Success? && forecast.Arr? ==>
      |r.value| == |forecast.items| &&
      forall j :: 0 <= j < |r.value| ==> ForecastDay(forecast.items[j]) == Success(r.value[j])
    ensures r.Success? && !forecast.Arr? ==> r.value == []
    ensures !forecast.Arr? ==> (r.Success? <==> forecast == Obj(map[]) || forecast == Str(""))
    ensures !forecast.Arr? && r.Failure? ==> r.error == TypeError
  {
    match forecast
    case Arr(items) => ForecastDaysFrom(items, 0)
    case Obj(m) => if m == map[] then Success([]) else Failure(TypeError)
    case Str(s) => if s == "" then Success([]) else Failure(TypeError)
    case _ => Failure(TypeError)
  }

  /** The `forecast` branch. */
  function ForecastShape(data: Json, latitude: string, longitude: string): (r: Result<Json, PyError>)
    ensures r.Success? ==> r.value.Obj? && r.value.fields.Keys == {"latitude", "longitude", "forecast"}
    ensures r.Success? ==> r.value.fields["latitude"] == Str(latitude) && r.value.fields["longitude"] == Str(longitude)
    ensures r.Success? ==> r.value.fields["forecast"].Arr?
    ensures r.Success? <==>
      && Index(data, "forecast").Success?
      && Index(Index(data, "forecast").value, "forecastday").Success?
      && IterateForecast(Index(Index(data, "forecast").value, "forecastday").value).Success?
    ensures r.Success? ==>
      r.value.fields["forecast"] == Arr(IterateForecast(Index(Index(data, "forecast").value, "forecastday").value).value)
  {
    var forecast :- Index(data, "forecast");
    var days :- Index(forecast, "forecastday");
    var entries :- IterateForecast(days);
    Success(Obj(map["latitude" := Str(latitude), "longitude" := Str(longitude), "forecast" := Arr(entries)]))
  }

  /** When `data["forecast"]["forecastday"]` is a list, the forecast
      branch returns normally exactly when every day has the fields it
      reads, and then holds one entry per day, in the days' order, each
      carrying that day's date. */
  lemma ForecastOnePerDay(data: Json, latitude: string, longitude: string, items: seq<Json>)
    requires data.Obj? && "forecast" in data.fields
    requires data.fields["forecast"].Obj? && "forecastday" in data.fields["forecast"].fields
    requires data.fields["forecast"].fields["forecastday"] == Arr(items)
    ensures ForecastShape(data, latitude, longitude).Success? <==>
      forall j :: 0 <= j < |items| ==> ForecastDay(items[j]).Success?
    ensures ForecastShape(data, latitude, longitude).Success? ==>
      var entries := ForecastShape(data, latitude, longitude).value.fields["forecast"].items;
      && |entries| == |items|
      && forall j :: 0 <= j < |entries| ==>
           ForecastDay(items[j]) == Success(entries[j]) && Index(items[j], "date") == Success(entries[j].fields["date"])
  {
  }

  /** The `history` branch as written: it reads `data["forecast"]`. */
  function HistoryShape(data: Json, latitude: string, longitude: string): Result<Json, PyError> {
    var forecast :- Index(data, "forecast");
    var days :- Index(forecast, "forecastday");
    var history :- IndexFirst(days);
    var date :- Index(history, "date");
    var d :- Index(history, "day");
    var temp :- Index(d, "avgtemp_c");
    var condition :- Index(d, "condition");
    var text :- Index(condition, "text");
    Success(Obj(map[
      "latitude" := Str(latitude),
      "longitude" := Str(longitude),
      "date" := date,
      "temperature_c" := temp,
      "condition" := text]))
  }

  /** The `history` branch is only entered when `"forecast" in data` was
      false, and then its first subscript `data["forecast"]` raises. */
  lemma HistoryNeverReturns(data: Json, latitude: string, longitude: string)
    requires Contains(data, "forecast") == Success(false)
    ensures HistoryShape(data, latitude, longitude).Failure?
  {
    AbsentKeyRaises(data, "forecast");
  }

  /** The body of `get_weather_response` after the fetch: the key
      dispatch `error`, `current`, `forecast`, `history`, in that order. */
  function NormalizeWeather(data: Json, latitude: string, longitude: string): (r: Result<Json, PyError>)
    ensures Has(data, "error") ==> r == Success(data)
    ensures Contains(data, "error").Failure? ==> r == Failure(TypeError)
    ensures Contains(data, "error") == Success(false) && Has(data, "current") ==>
      r == CurrentShape(data, latitude, longitude)
    ensures Contains(data, "error") == Success(false) && !Has(data, "current") && Has(data, "forecast") ==>
      r == ForecastShape(data, latitude, longitude)
    ensures !Has(data, "error") && Has(data, "current") && r.Success? ==>
      (r.value.Obj? && r.value.fields.Keys ==
        {"latitude", "longitude", "temperature_c", "condition", "humidity", "wind_kph"})
    ensures !Has(data, "error") && !Has(data, "current") && Has(data, "forecast") && r.Success? ==>
      (r.value.Obj? && r.value.fields.Keys == {"latitude", "longitude", "forecast"})
    ensures !Has(data, "error") && !Has(data, "current") && !Has(data, "forecast") && Has(data, "history") ==>
      r.Failure?
    ensures Contains(data, "error") == Success(false) && !Has(data, "current") && !Has(data, "forecast") && !Has(data, "history") ==>
      r == Success(UnexpectedFormat)
    ensures r.Success? && !Has(data, "error") && r != Success(UnexpectedFormat) ==>
      r.value.Obj? && r.value.fields["latitude"] == Str(latitude) && r.value.fields["longitude"] == Str(longitude)
  {
    var hasError :- Contains(data, "error");
    if hasError then Success(data)
    else if Contains(data, "current").value then CurrentShape(data, latitude, longitude)
    else if Contains(data, "forecast").value then ForecastShape(data, latitude, longitude)
    else if Contains(data, "history").value then
      HistoryNeverReturns(data, latitude, longitude);
      HistoryShape(data, latitude, longitude)
    else Success(UnexpectedFormat)
  }

  /** `get_weather_response(latitude, longitude, date, forecast_days)`,
      with `json.dumps`/`json.loads` left out. */
  function GetWeatherResponse(latitude: string, longitude: string, date: Option<string>, forecastDays: Option<int>,
                              key: Option<string>, get: string -> HttpResponse): (r: Result<Json, PyError>)
    ensures var resp := get(WeatherUrl(latitude, longitude, date, forecastDays, key));
      && (resp.status != 200 ==> r == Success(StatusErrorPayload(resp.status, resp.text)))
      && (resp.status == 200 && resp.body.None? ==> r == Success(ParseErrorPayload))
      && (resp.status == 200 && resp.body.Some? ==> r == NormalizeWeather(resp.body.value, latitude, longitude))
  {
    NormalizeWeather(FetchWeatherData(latitude, longitude, date, forecastDays, key, get), latitude, longitude)
  }
}
