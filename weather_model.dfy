/** The `weather` table's row type. */
module WeatherModel {
  import opened Clock

  /** One stored reading. `id` is the primary key the store assigns on insert;
      `city`, `timePoint` and `temperature` are the columns the writer supplies,
      all of them required. The temperature is a float in the table; the model
      keeps it opaque (`Temp`), compared only for equality. */
  datatype Weather<Temp> = Weather(id: int, city: string, timePoint: DateTime, temperature: Temp)
}
