/**
  The `TableTransformers` facade: a map from names to transformers, filled
  with the three built-ins when created, extended or overwritten by
  `useTransformer`, and consulted by `transform`, which leaves the table alone
  when no transformer goes by the given name.
 */
module Registry {
  import opened Tables
  import LandscapeTransformer
  import FormattingTransformer
  import ReplacingTransformer

  const FROM_LANDSCAPE := "FROM_LANDSCAPE"
  const FORMATTING := "FORMATTING"
  const REPLACING := "REPLACING"

  /**
    A registered transformer: one of the three built-ins, or one supplied by
    the caller, given as what it does to a table.
   */
  datatype TableTransformer =
    | FromLandscape
    | Formatting
    | Replacing
    | Custom(transform: (string, RowParser, TableProperties) -> Result<string>)

  /** A map entry: `null` (`None`) is a value Java's `HashMap` stores like any other. */
  datatype Option<T> = None | Some(value: T)

  /** What `transformer.transform(tableAsString, tableParsers, properties)` gives. */
  function Apply(t: TableTransformer, tableAsString: string, parser: RowParser, props: TableProperties): Result<string>
  {
    match t
    case FromLandscape => LandscapeTransformer.FromLandscape(tableAsString, parser, props)
    case Formatting => Success(FormattingTransformer.Formatting(tableAsString, parser, props))
    case Replacing => Success(ReplacingTransformer.Replacing(tableAsString, props))
    case Custom(f) => f(tableAsString, parser, props)
  }

  /**
    What `transform` gives for a registry holding `transformers`: `get`
    returns `null` both for a missing name and for a name bound to `null`.
   */
  function Dispatch(transformers: map<string, Option<TableTransformer>>, name: string,
                    tableAsString: string, parser: RowParser, props: TableProperties): Result<string>
  {
    if name in transformers && transformers[name].Some? then Apply(transformers[name].value, tableAsString, parser, props)
    else Success(tableAsString)
  }

  /** The registry a new `TableTransformers` holds. */
  function BuiltIns(): map<string, Option<TableTransformer>>
  {
    map[FROM_LANDSCAPE := Some(FromLandscape), FORMATTING := Some(Formatting), REPLACING := Some(Replacing)]
  }

  /**
    A new registry knows exactly the three built-in names, each bound to its
    transformer, and leaves a table alone under any other name.
   */
  lemma BuiltInsDispatch(name: string, tableAsString: string, parser: RowParser, props: TableProperties)
    ensures BuiltIns().Keys == {FROM_LANDSCAPE, FORMATTING, REPLACING}
    ensures Dispatch(BuiltIns(), FROM_LANDSCAPE, tableAsString, parser, props)
         == LandscapeTransformer.FromLandscape(tableAsString, parser, props)
    ensures Dispatch(BuiltIns(), FORMATTING, tableAsString, parser, props)
         == Success(FormattingTransformer.Formatting(tableAsString, parser, props))
    ensures Dispatch(BuiltIns(), REPLACING, tableAsString, parser, props)
         == Success(ReplacingTransformer.Replacing(tableAsString, props))
    ensures name !in {FROM_LANDSCAPE, FORMATTING, REPLACING} ==>
              Dispatch(BuiltIns(), name, tableAsString, parser, props) == Success(tableAsString)
  {
    var b := BuiltIns();
    assert b[FROM_LANDSCAPE] == Some(FromLandscape);
    assert b[FORMATTING] == Some(Formatting);
    assert b[REPLACING] == Some(Replacing);
  }

  /**
    After registering `t` under `name`, that name dispatches to `t` whatever
    was there before, and every other name dispatches as it did.
   */
  lemma RegisterDispatch(transformers: map<string, Option<TableTransformer>>, name: string, t: TableTransformer,
                         other: string, tableAsString: string, parser: RowParser, props: TableProperties)
    ensures Dispatch(transformers[name := Some(t)], name, tableAsString, parser, props)
         == Apply(t, tableAsString, parser, props)
    ensures other != name ==>
              (Dispatch(transformers[name := Some(t)], other, tableAsString, parser, props)
               == Dispatch(transformers, other, tableAsString, parser, props))
  {
  }

  /**
    A name nothing is registered under, or one registered as `null`, gives
    the table back untouched, never a failure.
   */
  lemma UnknownNameKeepsTable(transformers: map<string, Option<TableTransformer>>, name: string,
                              tableAsString: string, parser: RowParser, props: TableProperties)
    requires name !in transformers || transformers[name].None?
    ensures Dispatch(transformers, name, tableAsString, parser, props) == Success(tableAsString)
  {
  }

  /**
    Registering `null` under a name makes that name pass the table through,
    whatever it stood for before, and leaves every other name alone.
   */
  lemma RegisterNullUnregisters(transformers: map<string, Option<TableTransformer>>, name: string,
                                other: string, tableAsString: string, parser: RowParser, props: TableProperties)
    ensures Dispatch(transformers[name := None], name, tableAsString, parser, props) == Success(tableAsString)
    ensures other != name ==>
              (Dispatch(transformers[name := None], other, tableAsString, parser, props)
               == Dispatch(transformers, other, tableAsString, parser, props))
  {
  }

  /** Registering twice under one name: the second registration wins. */
  lemma RegisterOverwrites(transformers: map<string, Option<TableTransformer>>, name: string, t1: Option<TableTransformer>, t2: Option<TableTransformer>,
                           other: string, tableAsString: string, parser: RowParser, props: TableProperties)
    ensures Dispatch(transformers[name := t1][name := t2], other, tableAsString, parser, props)
         == Dispatch(transformers[name := t2], other, tableAsString, parser, props)
  {
  }

  class TableTransformers {
    var transformers: map<string, Option<TableTransformer>>

    /** The three built-ins, under their names. */
    constructor ()
      ensures transformers == BuiltIns()
    {
      transformers := map[];
      new;
      UseTransformer(FROM_LANDSCAPE, Some(FromLandscape));
      UseTransformer(FORMATTING, Some(Formatting));
      UseTransformer(REPLACING, Some(Replacing));
    }

    /**
      `useTransformer`: `name` now stands for `transformer`, replacing what it
      stood for before; `None` is the `null` a caller may pass.
     */
    method UseTransformer(name: string, transformer: Option<TableTransformer>)
      modifies this
      ensures transformers == old(transformers)[name := transformer]
    {
      transformers := transformers[name := transformer];
    }

    /**
      `transform`: the transformer registered under `transformerName` applied
      to the table, or the table itself when there is none.
     */
    method Transform(transformerName: string, tableAsString: string, parser: RowParser, props: TableProperties)
      returns (r: Result<string>)
      ensures r == Dispatch(transformers, transformerName, tableAsString, parser, props)
    {
      var transformer := if transformerName in transformers then transformers[transformerName] else None;
      if transformer.Some? {
        match transformer.value
        case FromLandscape =>
          r := LandscapeTransformer.Transform(tableAsString, parser, props);
        case Formatting =>
          var s := FormattingTransformer.Transform(tableAsString, parser, props);
          r := Success(s);
        case Replacing =>
          r := Success(ReplacingTransformer.Replacing(tableAsString, props));
        case Custom(f) =>
          r := f(tableAsString, parser, props);
      } else {
        r := Success(tableAsString);
      }
    }
  }
}
