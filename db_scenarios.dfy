/** The two store scenarios the repository's tests exercise, each on a freshly
    created, empty table. */
module DbScenarios {
  import opened Clock
  import opened WeatherModel
  import opened Db

  /** One reading is stored and the same city's readings for that reading's day
      are read back: exactly that one row comes back, with its id, city and
      temperature. */
  method SetThenGet<Temp(!new)>(city: string, temperature: Temp, now: DateTime)
    returns (id: int, result: seq<Weather<Temp>>)
    ensures 1 <= id
    ensures result == [Weather(id, city, now, temperature)]
  {
    var db := new DB<Temp>();
    id := db.SetWeather(city, temperature, now);
    result := db.GetWeather(city, DateOf(now));
    QuerySingleRow(Weather(id, city, now, temperature));
  }

  /** Two readings of one city at 09:00 and at 15:00 of the same day are
      stored; reading that day back gives both, the 15:00 one first, each
      with its own temperature. */
  method TwoReadingsNewestFirst<Temp(!new)>(city: string, today: Date, morning: Temp, afternoon: Temp)
    returns (result: seq<Weather<Temp>>)
    ensures |result| == 2
    ensures result[0].timePoint == Combine(today, TimeMin) + Hours(15) && result[0].temperature == afternoon
    ensures result[1].timePoint == Combine(today, TimeMin) + Hours(9) && result[1].temperature == morning
    ensures forall i :: 0 <= i < |result| ==> result[i].city == city && DateOf(result[i].timePoint) == today
  {
    var time1 := Combine(today, TimeMin) + Hours(9);
    var time2 := Combine(today, TimeMin) + Hours(15);
    var db := new DB<Temp>();
    var id1 := db.SetWeather(city, morning, time1);
    var id2 := db.SetWeather(city, afternoon, time2);
    var w1, w2 := Weather(id1, city, time1, morning), Weather(id2, city, time2, afternoon);
    assert time1 == Combine(today, Hours(9)) && time2 == Combine(today, Hours(15));
    WindowIsDay(time1, today);
    WindowIsDay(time2, today);
    assert db.rows == [w1, w2];
    QueryTwoRows(w1, w2, city, today, true);
    result := db.GetWeather(city, today);
  }
}
