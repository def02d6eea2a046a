/**
 A compliance rule as loaded from configuration (analyze/rules.go). It has no
 behaviour of its own here; the statistics pass only reads its name.
 */
module Rules {

  /** `pattern` and `kind` hold the YAML fields `match` and `type`, both
      reserved words in Dafny. */
  datatype Rule = Rule(
    name: string,
    action: string,
    resource: string,
    pattern: string,
    exclude: seq<string>,
    kind: string)
}
