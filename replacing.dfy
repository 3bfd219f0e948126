/**
  The REPLACING transformer: when the table's properties name both a
  `replacing` text and a `replacement` text, every occurrence of the first in
  the table text becomes the second; otherwise the text is left alone.
 */
module ReplacingTransformer {
  import opened Strings
  import opened Tables

  const REPLACING_KEY := "replacing"
  const REPLACEMENT_KEY := "replacement"

  /** Both properties are set. */
  predicate HasReplacement(props: TableProperties)
  {
    REPLACING_KEY in props.properties && REPLACEMENT_KEY in props.properties
  }

  /** `Replacing.transform`: `String.replace` with the two properties, or the text itself when either is missing. */
  function Replacing(tableAsString: string, props: TableProperties): string
  {
    if !HasReplacement(props) then tableAsString
    else Replace(tableAsString, props.properties[REPLACING_KEY], props.properties[REPLACEMENT_KEY])
  }

  /**
    The text comes back unchanged when a property is missing, when the
    replacement equals the text it replaces, or when that text does not occur
    (an empty one occurs everywhere).
   */
  lemma ReplacingNoOp(tableAsString: string, props: TableProperties)
    requires || !HasReplacement(props)
             || props.properties[REPLACING_KEY] == props.properties[REPLACEMENT_KEY]
             || (props.properties[REPLACING_KEY] != [] && !Contains(tableAsString, props.properties[REPLACING_KEY]))
    ensures Replacing(tableAsString, props) == tableAsString
  {
    if HasReplacement(props) {
      var target := props.properties[REPLACING_KEY];
      var replacement := props.properties[REPLACEMENT_KEY];
      if target == replacement {
        ReplaceBySelf(tableAsString, target);
      } else {
        ReplaceAbsent(tableAsString, target, replacement);
      }
    }
  }

  /**
    With both properties set and a non-empty text to replace, the result is
    the table cut at every occurrence of that text and glued back with the
    replacement: every occurrence is replaced, and nothing else changes.
   */
  lemma ReplacingReplacesAll(tableAsString: string, props: TableProperties)
    requires HasReplacement(props) && props.properties[REPLACING_KEY] != []
    ensures Replacing(tableAsString, props)
         == Join(Split(tableAsString, props.properties[REPLACING_KEY]), props.properties[REPLACEMENT_KEY])
  {
    ReplaceIsJoinOfSplit(tableAsString, props.properties[REPLACING_KEY], props.properties[REPLACEMENT_KEY]);
  }
}
