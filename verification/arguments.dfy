/** Command-line arguments as both entry points test them. */
module Arguments {
  import opened Wrappers

  /**
   * Python truthiness of an optional string argument: given and not empty.
   * `args.username and ...` skips a branch for `None` and for `""` alike.
   */
  predicate Given(o: Option<string>) {
    o.Some? && o.value != ""
  }
}
