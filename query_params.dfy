/** How the views read an optional query parameter. */
module QueryParams {
  import opened Wrappers

  /**
   * `if param:` in the views: a parameter counts as given only when it is
   * present and not the empty string.
   */
  predicate Present(param: Option<string>) {
    param.Some? && param.value != ""
  }
}
