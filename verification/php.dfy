/** The few PHP and WordPress conventions the plugin's handlers rely on. */
module Php {
  import opened Wrappers

  /** PHP `empty()` on a possibly-unset string: unset (or null), "" and "0"
      are all empty. */
  predicate Empty(v: Option<string>)
  {
    v.None? || v.value == "" || v.value == "0"
  }

  /** The page WordPress queries for a `paged` argument: its absolute value,
      with 0 read as the first page. */
  function QueryPage(paged: int): (p: nat)
    ensures p >= 1
    ensures paged >= 1 ==> p == paged
    ensures paged == 0 ==> p == 1
    ensures paged < 0 ==> p == -paged
  {
    if paged == 0 then 1 else if paged < 0 then -paged else paged
  }
}
