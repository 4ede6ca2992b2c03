/** An optional value: the model's stand-in for JavaScript's `undefined`
    and for "no match" results of the array searches. */
module Optional {

  datatype Option<+T> = None | Some(value: T) {

    /** The carried value, or `default` when there is none. */
    function GetOr(default: T): T
    {
      if Some? then value else default
    }
  }
}
