/** The callback result records of `pub mod callback` (src/c.rs:24-70). Each operation has
    its own record; callbacks are modelled as total functions of (index, line bytes). */
module Callback {
  import opened Bytes

  /** `SelectResultValue(pub bool, pub Vec<u8>, pub bool)`. The constructor names its
      first argument `inclode` (src/c.rs:32), but `select_each` binds that slot as `remove`
      and writes the record only when it is false (src/c.rs:117-118); the field is named
      for what it does. */
  datatype SelectResultValue = SelectResultValue(remove: bool, data: seq<byte>, stop: bool)
  {
    /** `SelectResultValue::new(inclode, data, stop)` */
    static function New(inclode: bool, data: seq<byte>, stop: bool): SelectResultValue
    {
      SelectResultValue(inclode, data, stop)
    }

    function ToTuple(): (bool, seq<byte>, bool) { (remove, data, stop) }
  }

  /** `RemoveResultValue(pub bool, pub bool)` = (remove, stop). */
  datatype RemoveResultValue = RemoveResultValue(remove: bool, stop: bool)
  {
    static function New(remove: bool, stop: bool): RemoveResultValue
    {
      RemoveResultValue(remove, stop)
    }

    function ToTuple(): (bool, bool) { (remove, stop) }
  }

  /** `ForEachResultValue(pub bool)` = (stop). */
  datatype ForEachResultValue = ForEachResultValue(stop: bool)
  {
    static function New(stop: bool): ForEachResultValue { ForEachResultValue(stop) }

    function IsStop(): bool { stop }
  }

  type ForEachFn = (nat, seq<byte>) -> ForEachResultValue
  type SelectFn = (nat, seq<byte>) -> SelectResultValue
  type RemoveFn = (nat, seq<byte>) -> RemoveResultValue

  /** The constructors and the accessors are inverse: `to_tuple`/`is_stop` return exactly
      the slots `new` was given, in the same order. In particular the `inclode` argument
      of `SelectResultValue::new` is what `select_each` reads as `remove`. */
  lemma ConstructorsRoundTrip(inclode: bool, data: seq<byte>, remove: bool, stop: bool)
    ensures SelectResultValue.New(inclode, data, stop).ToTuple() == (inclode, data, stop)
    ensures SelectResultValue.New(inclode, data, stop).remove == inclode
    ensures RemoveResultValue.New(remove, stop).ToTuple() == (remove, stop)
    ensures ForEachResultValue.New(stop).IsStop() == stop
  {
  }
}
