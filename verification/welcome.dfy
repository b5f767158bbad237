/** The welcome page: the greeting chosen from the hour, and the name shown next to it. */
module Welcome {
  import opened Wrappers

  const Morning := "Good morning"
  const Afternoon := "Good afternoon"
  const Evening := "Good evening"

  /** The `if`/`else if`/`else` chain on `new Date().getHours()`, taken here as a parameter. */
  function Greeting(hour: int): (g: string)
    ensures g == Morning <==> hour < 12
    ensures g == Afternoon <==> 12 <= hour < 18
    ensures g == Evening <==> 18 <= hour
  {
    if hour < 12 then Morning
    else if hour < 18 then Afternoon
    else Evening
  }

  const DefaultName := "User"

  /** The outcome of `GET /users/me/`; `None` is a missing or null `first_name`. */
  datatype UserFetch = Fetched(firstName: Option<string>) | FetchFailed

  /**
   * `first_name || 'User'`, and `'User'` again when the request fails. The
   * name starts out as `'User'` before the request completes.
   */
  function ShownName(fetch: UserFetch): (name: string)
    ensures name != ""
    ensures fetch.FetchFailed? ==> name == DefaultName
    ensures fetch.Fetched? && fetch.firstName.Some? && fetch.firstName.value != "" ==> name == fetch.firstName.value
    ensures name != DefaultName ==> fetch == Fetched(Some(name))
  {
    match fetch
    case FetchFailed => DefaultName
    case Fetched(None) => DefaultName
    case Fetched(Some(n)) => if n != "" then n else DefaultName
  }
}
