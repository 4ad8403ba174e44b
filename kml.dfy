/** What UFEDKMLmerge.py knows about KML inputs: the one qualified tag it
    extracts, the size that decides between a streaming and a whole-document
    parse, the placemark counter shown in the file list, and the `.kml`
    filter over the directory listing. */
module Kml {
  import opened Strings

  /** An XML element name qualified by its namespace URI, `{ns}local` in lxml. */
  datatype QName = QName(namespace: string, local: string)

  const KmlNamespace: string := "http://www.opengis.net/kml/2.2"

  /** `{http://www.opengis.net/kml/2.2}Placemark`, the only element of interest. */
  const PlacemarkTag: QName := QName(KmlNamespace, "Placemark")

  /** LARGE_FILE_THRESHOLD: 10 MiB. */
  const LargeFileThreshold: nat := 10 * 1024 * 1024

  /** The two ways parse_kml_file reads a source. */
  datatype Strategy = Streaming | WholeDocument

  /** parse_kml_file's choice: stream a file strictly larger than the
      threshold, parse anything else as one document. */
  function ChooseStrategy(size: nat): (s: Strategy)
    ensures s == Streaming <==> size > LargeFileThreshold
  {
    if size > LargeFileThreshold then Streaming else WholeDocument
  }

  /** The boundary sits between 10485760 and 10485761 bytes: a file of exactly
      10 MiB is still parsed whole. */
  lemma ThresholdBoundary()
    ensures LargeFileThreshold == 10485760
    ensures ChooseStrategy(10485760) == WholeDocument
    ensures ChooseStrategy(10485761) == Streaming
  {
  }

  /** What etree.iterparse delivers for one file: the names of the elements
      whose end events it reached, in document order, and whether it then
      stopped with an error (unreadable file, malformed XML, ...). */
  datatype EndEvents = EndEvents(ends: seq<QName>, failed: bool)

  /** count_placemarks_in_file: one per Placemark end event; any error
      discards the count and yields 0. */
  method CountPlacemarksInFile(events: EndEvents) returns (placemarkCount: nat)
    ensures events.failed ==> placemarkCount == 0
    ensures !events.failed ==> placemarkCount == multiset(events.ends)[PlacemarkTag]
  {
    placemarkCount := 0;
    var i := 0;
    while i < |events.ends|
      invariant 0 <= i <= |events.ends|
      invariant placemarkCount == multiset(events.ends[..i])[PlacemarkTag]
    {
      assert events.ends[..i + 1] == events.ends[..i] + [events.ends[i]];
      if events.ends[i] == PlacemarkTag {
        placemarkCount := placemarkCount + 1;
      }
      i := i + 1;
    }
    assert events.ends[..i] == events.ends;
    if events.failed {
      placemarkCount := 0;
    }
  }

  /** list_kml_files' filter over os.listdir: the names ending in `.kml`,
      case-sensitively, in listing order. */
  function ListKmlFiles(entries: seq<string>): (files: seq<string>)
    ensures |files| <= |entries|
    ensures forall f :: f in files <==> f in entries && EndsWith(f, ".kml")
  {
    if entries == [] then []
    else
      var init := ListKmlFiles(entries[..|entries| - 1]);
      var last := entries[|entries| - 1];
      assert entries == entries[..|entries| - 1] + [last];
      if EndsWith(last, ".kml") then init + [last] else init
  }

  /** The filter keeps listing order: filtering a concatenation is the
      concatenation of the filtered parts. */
  lemma {:induction false} ListKmlFilesConcat(a: seq<string>, b: seq<string>)
    ensures ListKmlFiles(a + b) == ListKmlFiles(a) + ListKmlFiles(b)
  {
    if b != [] {
      var b' := b[..|b| - 1];
      assert (a + b)[..|a + b| - 1] == a + b';
      assert (a + b)[|a + b| - 1] == b[|b| - 1];
      ListKmlFilesConcat(a, b');
    } else {
      assert a + b == a;
    }
  }
}
