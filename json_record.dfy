/** The decoded configuration object of the two earlier revisions (config.py
    and sewing_file_cleaner.py), which both read the keys `target_directory`
    and `extension_blacklist` and check them the same way before
    validating. The JSON text itself is not modelled. */
module JsonRecord {
  import opened Wrappers
  import Configuration

  /** What a key of the decoded object holds, as far as the checks care. */
  datatype JsonField = Absent | JsonString(text: string) | JsonList(items: seq<string>) | JsonOther

  datatype JsonObject = JsonObject(targetDirectory: JsonField, extensionBlacklist: JsonField)

  /** The `ValueError`s loading raises: a missing key or a value of the wrong
      type, or a decoded configuration that construction rejects. */
  datatype LoadError =
    | MissingTargetKey
    | TargetNotString
    | MissingBlacklistKey
    | BlacklistNotList
    | Rejected(error: Configuration.ConfigError)

  /** The four key and type checks, in order: the target text and the
      blacklist items when both pass. */
  function CheckKeys(obj: JsonObject): (r: Result<(string, seq<string>), LoadError>)
    ensures r.Success? <==> obj.targetDirectory.JsonString? && obj.extensionBlacklist.JsonList?
    ensures r.Success? ==> r.value == (obj.targetDirectory.text, obj.extensionBlacklist.items)
    ensures obj.targetDirectory.Absent? ==> r == Failure(MissingTargetKey)
    ensures !obj.targetDirectory.Absent? && !obj.targetDirectory.JsonString? ==> r == Failure(TargetNotString)
    ensures obj.targetDirectory.JsonString? && obj.extensionBlacklist.Absent? ==> r == Failure(MissingBlacklistKey)
    ensures obj.targetDirectory.JsonString? && !obj.extensionBlacklist.Absent? && !obj.extensionBlacklist.JsonList? ==>
              r == Failure(BlacklistNotList)
  {
    if obj.targetDirectory.Absent? then Failure(MissingTargetKey)
    else if !obj.targetDirectory.JsonString? then Failure(TargetNotString)
    else if obj.extensionBlacklist.Absent? then Failure(MissingBlacklistKey)
    else if !obj.extensionBlacklist.JsonList? then Failure(BlacklistNotList)
    else Success((obj.targetDirectory.text, obj.extensionBlacklist.items))
  }

  /** `set(items)`. */
  function ItemSet(items: seq<string>): (r: set<string>)
    ensures forall x :: x in r <==> x in items
  {
    set x | x in items
  }
}
