/** The change test every view model runs before it stores a property value
    and raises `PropertyChanged` (the notification itself is not modelled). */
module Observable {

  /** `SetProperty(ref backingStore, value)`: the backing store ends up
      holding `value` and the result says whether it differed from the old
      value, which is what the setters act on. */
  function SetProperty<T(==)>(backingStore: T, value: T): (r: (T, bool))
    ensures r.0 == value
    ensures r.1 <==> backingStore != value
  {
    if backingStore == value then (backingStore, false) else (value, true)
  }
}
