# Weather record store

This project models the data-access layer of a small weather-recording
service. The service keeps one table, `weather`. Each row holds an id, a
city, a naive timestamp (`time_point`) and a temperature. The `DB` class has
two operations:

- `set_weather` inserts one reading and returns the id the store gave it.
- `get_weather` returns the readings of one city on one calendar day, newest
  first.

The Dafny model has four modules:

- `Clock` (`clock.dfy`) covers Python's naive `date`/`datetime` as the store
  uses them. A date is its proleptic Gregorian day number, as
  `date.toordinal()` gives it. A timestamp is an integer count of
  microseconds since midnight of day 0. `datetime.combine`, `.date()`,
  `time.min`, `time.max` and `timedelta(hours=…)` become integer arithmetic,
  and comparing two timestamps as integers is the same as comparing them as
  `datetime` values.
- `WeatherModel` (`weather_model.dfy`) is the row type `Weather`, from
  `api/models/weather_model.py:17-20`. The temperature is a type parameter
  `Temp`: an opaque value that is only compared for equality.
- `Db` (`db.dfy`) holds the query as a pure function over the table's
  contents. `Select` is the WHERE clause, an exact city match plus an
  inclusive BETWEEN on the day's first and last microsecond. `SortDesc` is
  the ORDER BY `time_point` DESC clause. `Query` is `SortDesc` applied to
  `Select`. The module also holds the class `DB`. Its field `rows` is the
  table in insertion order, and its field `nextId` is the id the next insert
  will get. An object invariant `Valid()` says the ids are positive, below
  `nextId`, and strictly increasing along the table. `SetWeather` appends
  one row and advances the counter. `GetWeather` is `Query` over `rows`.
- `DbScenarios` (`db_scenarios.dfy`) holds the two store tests of the
  repository, written as methods on a freshly created, empty table.

The defaults of `set_weather` and `get_weather` (`datetime.now()` and
`date.today()`, at `api/db.py:32` and `api/db.py:52`) are evaluated once, when
the module is imported. The model does not reproduce that. `time_point` and
`day` are always explicit parameters.

Two consequences of the code as written:

- `SetWeather` accepts any string as the city, including the empty one. The
  column is only `nullable=False` (api/models/weather_model.py:18), and
  nothing checks for the empty string.
- `ORDER BY time_point DESC` (api/db.py:70) allows equal time points, so the
  model proves non-increasing order, not strictly decreasing order.

## Model

| member | source | states |
|---|---|---|
| `Clock.Time` | api/db.py:64-65 | `time(hour, minute, second, microsecond)` is a time of day whose hour, minute, second and microsecond read back as given |
| `Clock.TimeMinMax` | api/db.py:64-65 | `time.min` is 00:00:00 and `time.max` is 23:59:59.999999, one microsecond before the next midnight |
| `Clock.Hours` | tests/test_db.py:56-57 | `timedelta(hours=h)` for an hour of the day is less than a day and equals the time `time(h)` after midnight |
| `Clock.DateOf` | tests/test_db.py:69 | `dt.date()` is the day whose midnight is at or before `dt` and less than a day before it |
| `Clock.TimeOfDayOf` | tests/test_db.py:56-57 | `dt.time()` is how far `dt` lies past the midnight of its date |
| `Clock.Combine` | api/db.py:64-65 | the timestamp `datetime.combine(day, t)` has date `day` and time of day `t` |
| `Clock.CombineOfParts` | tests/test_db.py:69 | splitting a timestamp into its date and time and combining them gives the timestamp back |
| `Clock.WindowIsDay` | api/db.py:64-69 | a timestamp lies between `combine(day, time.min)` and `combine(day, time.max)`, both ends included, exactly when its date is `day` |
| `Db.Matches` | api/db.py:69 | the WHERE clause holds exactly when the city is equal and the time point's date is the requested day |
| `Db.Select` | api/db.py:67-69 | every selected row has the given city and a time point inside the day's window; each row of the table that matches appears as often as in the table, and no other row appears |
| `Db.Insert` | api/db.py:70 | inserting a row into a newest-first sequence keeps it newest-first and adds exactly that row |
| `Db.SortDesc` | api/db.py:70 | the result is ordered by non-increasing time point and is a permutation of the input |
| `Db.SortTwo` | api/db.py:70 | two rows are ordered newer first, and kept in their order when the first is not older than the second |
| `Db.Query` | api/db.py:51-74 | every returned row is a stored row with the exact city, a time point in the inclusive window and that calendar date; every stored matching row is returned, as often as it is stored; the result is ordered newest first |
| `Db.QueryEmptyIff` | api/db.py:73-74 | the result is the empty list if and only if no stored row matches the city and day; an empty result is a value, not an error |
| `Db.QueryMembership` | api/db.py:64-69 | a row is in the result if and only if it is stored with that city and its time point falls on that day |
| `Db.QueryAfterAppend` | api/db.py:45-47 | after one more row is appended, the query returns the same rows plus that row once if it matches, and nothing more |
| `Db.QuerySingleRow` | tests/test_db.py:26-35 | on a table holding one row, querying its city and its date returns exactly that row |
| `Db.QueryTwoRows` | tests/test_db.py:56-66 | two matching rows with different time points come back newer first, whichever was inserted first |
| `Db.QueryKeepsIdsUnique` | api/db.py:67-74 | when the stored ids are unique, the ids in the query result are unique too |
| `Db.DB.Valid` | api/models/weather_model.py:17 | the store's invariant implies the primary-key property: no two rows share an id |
| `Db.DB.constructor` | api/db.py:77-80 | a store over a freshly created table starts valid, with no rows, and will give id 1 to its first row |
| `Db.DB.SetWeather` | api/db.py:28-49 | appends exactly one row with the given city, time point and temperature and returns its id; the id is positive, differs from every existing id, and is the old counter; the rows already stored are unchanged and the invariant is kept |
| `Db.DB.GetWeather` | api/db.py:51-74 | returns only stored rows of that city and day; every such row comes back exactly once; no two returned rows share an id; the result is newest first |
| `DbScenarios.SetThenGet` | tests/test_db.py:21-35 | on an empty table, one insert followed by a query of that city and day returns exactly the inserted row, with a positive id |
| `DbScenarios.TwoReadingsNewestFirst` | tests/test_db.py:53-69 | on an empty table, readings at 09:00 and 15:00 of one day come back both, 15:00 first, each with its city, its temperature and that day's date |

## Left out

- Storage failures are not modelled: commit errors, rollback and a failed insert that still uses up a sequence value. The SQL engine handles them, and `api/db.py` has no code for them.
- The SQLAlchemy session mechanics (`add`, `commit`, `refresh`) and `init_models` (`api/db.py:77-80`, `api/base.py`) are not modelled. They are library and engine plumbing; only their effect on the table is modelled: `create_all` gives the constructor's empty table.
- async/await is not modelled. It has no meaning for a sequential model, and concurrent access is left to the engine's transactions.
- Db.DB.SetWeather: the id column is a 32-bit `Integer`, and the model does not bound the id counter, so the engine's overflow error is not modelled.
- Clock: Python `datetime` allows only years 1 to 9999; the model allows any integer day number and timestamp.
- The import-time default arguments (`api/db.py:32`, `api/db.py:52`) are not modelled. Both values are explicit parameters instead.
- The HTTP router, the app and dependency injection (`api/main.py`, `api/routers/weather_router.py`, `api/dependencies.py`) are not modelled. They are HTTP wiring.
- The `verify_token` header check is not modelled. Its source is not part of this model, and the endpoint test shows only three status codes.
- The Celery task and schedule, the outbound HTTP call and `get_data_from_resp` (`api/tasks.py`, `celery_beat.py`) are not modelled. They are network I/O, scheduling and a JSON lookup.
- Configuration loading (`api/config.py`) and the pydantic response schema (`api/schema/wether_schema.py`) are not modelled. They are environment wiring and serialization.
- Db.SortDesc: the SQL engine leaves the order of rows with equal time points unspecified; the model fixes it to table order. No property proved here depends on that choice.
- Db.DB.constructor: in the model one `DB` object is the whole table, while the source creates one `DB` per session over one shared table (api/dependencies.py:14, api/tasks.py:36). In the model, two handles on the same table must be the same object reference.
- Temperature as a floating-point number is not modelled. It stays an opaque value compared only for equality.
