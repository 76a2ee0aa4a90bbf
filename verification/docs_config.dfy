/** The fixed allow- and deny-lists the extractors consult. */
module DocsConfig {

  /** JavaScript helpers that are never documented. */
  const JsPrivateFuncs: seq<string> := [
    "dqQueryBuilder", "toArray", "indent", "formatTableValuesRecursive", "string_to_array",
    "array_to_hex_string", "SHA256_init", "SHA256_write", "SHA256_finalize", "SHA256_hash",
    "HMAC_SHA256_init", "HMAC_SHA256_write", "HMAC_SHA256_finalize", "HMAC_SHA256_MAC"]

  /** Python names that are never documented. */
  const PyPrivateFuncs: seq<string> := [
    "raiseTable", "zoomField", "epochToTimestamp", "formatTimeColumns", "strip_tag", "elem_to_internal",
    "internal_to_elem", "json2elem", "elem2json", "json2xml", "OrderedDict", "datetime", "timedelta",
    "createContextSingle", "IntegrationLogger", "tblToMd", "DemistoException", "BaseClient",
    "BaseHTTPClient", "DemistoHandler", "DebugLogger"]

  /** Python functions whose documented argument list replaces their introspected signature. */
  const PyIrregularFuncs: map<string, seq<string>> := map["LOG" := ["message"]]

  /** JavaScript functions available to automations only. */
  const JsAutomationOnly: seq<string> := [
    "fileNameFromEntry", "closeInvestigation", "setSeverity", "setIncident", "createNewIncident",
    "setPlaybookAccordingToType", "setOwner", "taskAssign", "setTaskDueDate", "setPlaybook", "addTask",
    "getCSVListAsArray", "getJSONListAsObject"]

  /** Functions whose description is rendered as markdown. */
  const MarkdownDescFuncs: seq<string> := ["createEntry"]

  /** The name under which the host-platform mock is bound in the Python namespace. */
  const MockBinding: string := "demisto"
}
