/** One conference instance as loaded from the YAML list, and how its date
    fields behave under `new Date(...)`.

    A date field is read twice by the dashboard: as a truthy/falsy value
    (`if (!deadline)`, `conference.deadline ? … : 'TBD'`) and through
    `new Date(field)`, which yields a time in milliseconds or NaN. Date
    parsing itself is host behaviour, so a field records its outcome. */
module Conferences {
  import opened Js

  /** A date field: `Missing` is a falsy value (absent or ""); `Unparsed` is
      a non-empty text for which `new Date` is an invalid date (NaN);
      `At` is a non-empty text parsed to `ms` milliseconds since the epoch. */
  datatype DateField = Missing | Unparsed(text: string) | At(text: string, ms: int)

  /** `new Date(field) > now`: only a valid time can compare true. */
  predicate After(f: DateField, now: int) {
    f.At? && f.ms > now
  }

  /** `new Date(field) <= now`: NaN compares false. */
  predicate AtOrBefore(f: DateField, now: int) {
    f.At? && f.ms <= now
  }

  /** The fields of a loaded conference that the dashboard reads. */
  datatype Conference = Conference(
    name: string,
    year: Cell,
    date: DateField,
    deadline: DateField,
    notificationDate: DateField,
    place: Cell)
}
