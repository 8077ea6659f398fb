/**
 * The parts of the check framework that the broken-link check relies on.
 * The base class itself (Check.rb) is not part of this model; only the
 * finding kinds, the finding record and the run arguments it hands to
 * every check are declared here.
 */
module Checks {
  import opened Wrappers

  /** The kind of a finding; the broken-link check only ever emits Warning. */
  datatype Kind = Warning | Error

  /** One reported result: its kind and a human-readable message. */
  datatype Finding = Finding(kind: Kind, message: string)

  /**
   * The run's configuration as a check sees it: the crawl scope (a base URL,
   * kept as the string the user gave) and the optional HTTP Basic
   * credentials. `None` is Ruby's nil; any string, even "", counts as set.
   */
  datatype Arguments = Arguments(scope: string, username: Option<string>, password: Option<string>)
}
