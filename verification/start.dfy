/** The checks `start_conversion` makes before it starts the worker: the
    source must exist, a destination must be given, and discovery must find
    something to convert. The text fields arrive as typed; the source has
    already been looked up on disk. */
module Start {
  import opened Wrappers
  import Text
  import Naming
  import Discovery

  /** Where the run stopped before converting anything, or what it is about
      to convert. */
  datatype Decision =
    | SourceMissing
    | DestinationMissing
    | NothingToDo
    | Started(items: seq<string>, destination: string, prefix: Option<string>)

  /** The destination folder as `Path(text.strip())` reads it: an empty
      field names the current directory. */
  function Destination(field: string): string
  {
    var s := Text.Strip(field);
    if s == [] then "." else s
  }

  /** `start_conversion` as written. Its destination check `if not dst:`
      tests a `Path`, which is always truthy, so it never rejects anything. */
  function StartAsWritten(src: Discovery.Source, dstField: string, recursive: bool, prefixField: string): (d: Decision)
    ensures d != DestinationMissing
    ensures d == SourceMissing <==> src.Missing?
  {
    if src.Missing? then SourceMissing
    else
      var items := Discovery.CollectImages(src, recursive);
      if items == [] then NothingToDo
      else Started(items, Destination(dstField), Naming.NormalisePrefix(prefixField))
  }

  /** A blank destination field slips through the destination test as written: with
      an existing source holding at least one image the run starts and
      writes into the current directory. */
  lemma BlankDestinationAccepted(src: Discovery.Source, dstField: string, recursive: bool, prefixField: string)
    requires !src.Missing? && Discovery.CollectImages(src, recursive) != []
    requires Text.AllSpace(dstField)
    ensures StartAsWritten(src, dstField, recursive, prefixField)
         == Started(Discovery.CollectImages(src, recursive), ".", Naming.NormalisePrefix(prefixField))
  {
    Text.StripEmptyIff(dstField);
  }

  /** `start_conversion` with the destination check it evidently intends:
      a blank destination field is refused before anything is discovered. */
  function StartConversion(src: Discovery.Source, dstField: string, recursive: bool, prefixField: string): (d: Decision)
    ensures d == SourceMissing <==> src.Missing?
    ensures d == DestinationMissing <==> !src.Missing? && Text.AllSpace(dstField)
    ensures d == NothingToDo <==>
      !src.Missing? && !Text.AllSpace(dstField) && Discovery.CollectImages(src, recursive) == []
    ensures d.Started? ==>
      && d.items == Discovery.CollectImages(src, recursive) && d.items != []
      && d.destination == Text.Strip(dstField)
      && d.prefix == Naming.NormalisePrefix(prefixField)
    ensures !Text.AllSpace(dstField) ==> d == StartAsWritten(src, dstField, recursive, prefixField)
  {
    Text.StripEmptyIff(dstField);
    if src.Missing? then SourceMissing
    else if Text.Strip(dstField) == [] then DestinationMissing
    else StartAsWritten(src, dstField, recursive, prefixField)
  }
}
