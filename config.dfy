/** The module-level settings the handler and the sweep read:
    `DISCARD_UNKNOWN`, `DOMAINS`, `DELETE_OLDER_THAN_DAYS` and
    `LAST_CLEANUP`. Reading them from the configuration file is not part of
    this model; a caller sets the fields. */
module Config {

  class Settings {
    /** Skip recipients whose domain no rule matches. */
    var discardUnknown: bool
    /** The domain rules, already lower-cased. */
    var domains: seq<string>
    /** The retention threshold in days; 0 (Python's `False`) turns the sweep off. */
    var deleteOlderThanDays: nat
    /** The time of the last sweep, in seconds. */
    var lastCleanup: real

    /** The values the globals start with. */
    constructor ()
      ensures !discardUnknown && domains == []
      ensures deleteOlderThanDays == 0 && lastCleanup == 0.0
    {
      discardUnknown := false;
      domains := [];
      deleteOlderThanDays := 0;
      lastCleanup := 0.0;
    }
  }
}
