// `ImageUpload`'s rule for which dropped files reach `onFileChange`: the
// `accept` list is split at `,` and each entry trimmed; `*/*` as the whole
// list accepts everything, an entry ending in `/*` accepts the types that
// start with the entry without its `*`, any other entry only the identical
// type. Also the label shown under the drop zone.
module ImageUpload {
  import opened Wrappers
  import opened JsString

  // The `accept` the component uses when none is given.
  const DefaultAccept: string := "image/png, image/jpeg, image/dicom, image/x-ray, image/ct, image/mri"

  // The part of a dropped `File` the rule looks at, with its name.
  datatype DroppedFile = DroppedFile(name: string, mimeType: string)

  // `accept.split(',').map(type => type.trim())`.
  function AcceptedTypes(accept: string): (types: seq<string>)
    ensures |types| == |Split(accept, ',')|
    ensures forall i :: 0 <= i < |types| ==> types[i] == Trim(Split(accept, ',')[i])
  {
    var pieces := Split(accept, ',');
    seq(|pieces|, i requires 0 <= i < |pieces| => Trim(pieces[i]))
  }

  // The test `some` applies to one trimmed entry.
  predicate EntryAccepts(entry: string, fileType: string) {
    if EndsWith(entry, "/*") then StartsWith(fileType, entry[..|entry| - 1])
    else fileType == entry
  }

  // `isFileTypeAccepted`: there is a file, and the whole list is `*/*` or
  // some entry accepts the file's type.
  predicate IsFileTypeAccepted(accept: string, file: Option<DroppedFile>) {
    var types := AcceptedTypes(accept);
    file.Some? && (accept == "*/*" || exists i :: 0 <= i < |types| && EntryAccepts(types[i], file.value.mimeType))
  }

  // `handleDrop`: the file handed to `onFileChange`, if any. A disabled
  // zone, a drop without a file and a rejected type call nothing.
  function HandleDrop(disabled: bool, accept: string, file: Option<DroppedFile>): (call: Option<DroppedFile>)
    ensures call.Some? <==> !disabled && IsFileTypeAccepted(accept, file)
    ensures call.Some? ==> call == file
  {
    if disabled then None
    else if file.Some? && IsFileTypeAccepted(accept, file) then file
    else None
  }

  // `handleFileChange`: the argument `onFileChange` is called with (the first
  // chosen file or `null`), or `None` when the zone is disabled and nothing
  // is called. The type is not checked on this path.
  function HandleFileChange(disabled: bool, files: seq<DroppedFile>): (call: Option<Option<DroppedFile>>)
    ensures disabled <==> call.None?
    ensures call.Some? ==> (call.value.Some? <==> |files| > 0)
    ensures call.Some? && |files| > 0 ==> call.value.value == files[0]
  {
    if disabled then None
    else if |files| > 0 then Some(Some(files[0]))
    else Some(None)
  }

  // `accept === "*/*"` lets every dropped file through, whatever its type.
  lemma WildcardAcceptsAll(file: DroppedFile)
    ensures HandleDrop(false, "*/*", Some(file)) == Some(file)
  {
  }

  // An entry `<family>/*` accepts exactly the types `<family>/<anything>`.
  lemma FamilyWildcard(family: string, fileType: string)
    ensures EntryAccepts(family + "/*", fileType) <==> exists sub :: fileType == family + "/" + sub
  {
    var entry := family + "/*";
    assert EndsWith(entry, "/*") by {
      assert entry[|entry| - 2..] == "/*";
    }
    var prefix := entry[..|entry| - 1];
    assert prefix == family + "/";
    if StartsWith(fileType, prefix) {
      var sub := fileType[|prefix|..];
      assert fileType == prefix + sub;
      assert fileType == family + "/" + sub;
    }
    if exists sub :: fileType == family + "/" + sub {
      var sub :| fileType == family + "/" + sub;
      assert fileType[..|prefix|] == prefix;
    }
  }

  // An entry not ending in `/*` accepts only the identical type: matching
  // is case-sensitive, so `image/PNG` is not `image/png`.
  lemma ExactEntry(entry: string, fileType: string)
    requires !EndsWith(entry, "/*")
    ensures EntryAccepts(entry, fileType) <==> fileType == entry
  {
  }

  // `*/*` as one entry of a longer list is not a wildcard: only types that
  // literally start with `*/` pass it.
  lemma WildcardEntry(fileType: string)
    ensures EntryAccepts("*/*", fileType) <==> StartsWith(fileType, "*/")
  {
    assert EndsWith("*/*", "/*");
    assert "*/*"[..2] == "*/";
  }

  // So `image/png, */*` rejects `text/plain`.
  lemma WildcardInsideList()
    ensures !IsFileTypeAccepted("image/png, */*", Some(DroppedFile("notes.txt", "text/plain")))
  {
    TwoEntryList();
    WildcardEntry("text/plain");
    TextPlainNotStar();
    PngRejectsText();
    RejectedByEveryEntry("image/png, */*", ["image/png", "*/*"], DroppedFile("notes.txt", "text/plain"));
  }

  // A list other than `*/*` rejects a file no entry accepts.
  lemma RejectedByEveryEntry(accept: string, types: seq<string>, file: DroppedFile)
    requires accept != "*/*" && AcceptedTypes(accept) == types
    requires forall i :: 0 <= i < |types| ==> !EntryAccepts(types[i], file.mimeType)
    ensures !IsFileTypeAccepted(accept, Some(file))
  {
  }

  lemma TextPlainNotStar()
    ensures !StartsWith("text/plain", "*/")
  {
    assert "text/plain"[..2][0] != "*/"[0];
  }

  lemma PngRejectsText()
    ensures !EntryAccepts("image/png", "text/plain")
  {
    assert "image/png"[7..][1] != "/*"[1];
    assert "text/plain"[0] != "image/png"[0];
  }

  lemma TwoEntryList()
    ensures AcceptedTypes("image/png, */*") == ["image/png", "*/*"]
  {
    TwoEntries("image/png", " ", "*/*");
    assert "image/png" + "," + " " + "*/*" == "image/png, */*";
  }

  // Two unpadded entries, whitespace after the comma, split back apart.
  lemma TwoEntries(a: string, w: string, b: string)
    requires ',' !in a && ',' !in b && AllWhitespace(w)
    requires a != "" && !IsWhitespace(a[0]) && !IsWhitespace(a[|a| - 1])
    requires b != "" && !IsWhitespace(b[0]) && !IsWhitespace(b[|b| - 1])
    ensures AcceptedTypes(a + "," + w + b) == [a, b]
  {
    NoCommaInWhitespace(w);
    var pieces := [a, w + b];
    assert a + "," + w + b == Join(pieces, ",");
    SplitJoin(pieces, ',');
    TrimUnpadded(a);
    TrimUnpadded(b);
    TrimPadded(w, b, "");
    assert w + b + "" == w + b;
  }

  // A string that neither starts nor ends with whitespace is its own trim.
  lemma TrimUnpadded(s: string)
    requires s != "" && !IsWhitespace(s[0]) && !IsWhitespace(s[|s| - 1])
    ensures Trim(s) == s && TrimStart(s) == s
  {
  }

  // Pieces of an `accept` list padded with whitespace.
  function Padded(entries: seq<string>, left: seq<string>, right: seq<string>): (padded: seq<string>)
    requires |left| == |entries| == |right|
    ensures |padded| == |entries|
  {
    seq(|entries|, i requires 0 <= i < |entries| => left[i] + entries[i] + right[i])
  }

  lemma NoCommaInWhitespace(w: string)
    requires AllWhitespace(w)
    ensures ',' !in w
  {
    forall k | 0 <= k < |w| ensures w[k] != ',' {
      assert IsWhitespace(w[k]);
    }
  }

  // Whitespace around the commas never changes the entries.
  lemma PaddingIgnored(entries: seq<string>, left: seq<string>, right: seq<string>)
    requires |entries| >= 1 && |left| == |entries| == |right|
    requires forall i :: 0 <= i < |entries| ==> ',' !in entries[i]
    requires forall i :: 0 <= i < |entries| ==> AllWhitespace(left[i]) && AllWhitespace(right[i])
    ensures AcceptedTypes(Join(Padded(entries, left, right), ",")) == AcceptedTypes(Join(entries, ","))
  {
    var padded := Padded(entries, left, right);
    forall i | 0 <= i < |padded| ensures ',' !in padded[i] {
      NoCommaInWhitespace(left[i]);
      NoCommaInWhitespace(right[i]);
    }
    SplitJoin(padded, ',');
    SplitJoin(entries, ',');
    forall i | 0 <= i < |entries| ensures Trim(padded[i]) == Trim(entries[i]) {
      TrimPadded(left[i], entries[i], right[i]);
    }
  }

  // Hence padding does not change which files are accepted, as long as
  // neither list is exactly `*/*`.
  lemma PaddingKeepsAcceptance(entries: seq<string>, left: seq<string>, right: seq<string>, file: Option<DroppedFile>)
    requires |entries| >= 1 && |left| == |entries| == |right|
    requires forall i :: 0 <= i < |entries| ==> ',' !in entries[i]
    requires forall i :: 0 <= i < |entries| ==> AllWhitespace(left[i]) && AllWhitespace(right[i])
    requires Join(entries, ",") != "*/*" && Join(Padded(entries, left, right), ",") != "*/*"
    ensures IsFileTypeAccepted(Join(Padded(entries, left, right), ","), file)
        <==> IsFileTypeAccepted(Join(entries, ","), file)
  {
    PaddingIgnored(entries, left, right);
  }

  // `t.split('/')[1]?.toUpperCase() || t`: the upper-cased subtype, or the
  // untrimmed entry itself when it has no `/` or nothing after it. What the
  // caption is for each kind of piece is stated by `LabelOfTypedPiece` and
  // `LabelOfUntypedPiece` below.
  function LabelPiece(t: string): (caption: string)
    ensures caption != "" || t == ""
  {
    var parts := Split(t, '/');
    if |parts| > 1 && ToUpper(parts[1]) != "" then ToUpper(parts[1]) else t
  }

  // The label of each piece of a list.
  function Labels(pieces: seq<string>): (labels: seq<string>)
    ensures |labels| == |pieces|
    ensures forall i :: 0 <= i < |pieces| ==> labels[i] == LabelPiece(pieces[i])
  {
    seq(|pieces|, i requires 0 <= i < |pieces| => LabelPiece(pieces[i]))
  }

  // The line under the drop zone.
  function AcceptLabel(accept: string): (caption: string)
    ensures accept == "*/*" ==> caption == "Any file type"
  {
    if accept == "*/*" then "Any file type"
    else Join(Labels(Split(accept, ',')), ", ")
  }

  // The label of a `<family>/<sub>` piece is the upper-cased `<sub>`.
  lemma LabelOfTypedPiece(family: string, sub: string)
    requires '/' !in family && '/' !in sub && sub != ""
    ensures LabelPiece(family + "/" + sub) == ToUpper(sub)
  {
    SplitLastPiece(family, sub, '/');
    SplitNoSeparator(family, '/');
  }

  // A piece without `/` is shown as it is, spaces included.
  lemma LabelOfUntypedPiece(t: string)
    requires '/' !in t
    ensures LabelPiece(t) == t
  {
    SplitNoSeparator(t, '/');
  }

  // The label of a list of `<family>/<sub>` entries is the list of the
  // upper-cased subtypes, joined with `, `.
  lemma LabelOfTypedList(families: seq<string>, subs: seq<string>)
    requires |families| == |subs| >= 1
    requires forall i :: 0 <= i < |subs| ==> '/' !in families[i] && '/' !in subs[i] && subs[i] != ""
    requires forall i :: 0 <= i < |subs| ==> ',' !in families[i] && ',' !in subs[i]
    requires Join(TypedEntries(families, subs), ",") != "*/*"
    ensures AcceptLabel(Join(TypedEntries(families, subs), ","))
         == Join(seq(|subs|, i requires 0 <= i < |subs| => ToUpper(subs[i])), ", ")
  {
    var entries := TypedEntries(families, subs);
    forall i | 0 <= i < |entries| ensures ',' !in entries[i] {
      assert entries[i] == families[i] + "/" + subs[i];
    }
    SplitJoin(entries, ',');
    forall i | 0 <= i < |entries| ensures LabelPiece(entries[i]) == ToUpper(subs[i]) {
      LabelOfTypedPiece(families[i], subs[i]);
    }
    assert Labels(entries) == seq(|subs|, i requires 0 <= i < |subs| => ToUpper(subs[i]));
  }

  // The entries `<family>/<sub>` of a list.
  function TypedEntries(families: seq<string>, subs: seq<string>): (entries: seq<string>)
    requires |families| == |subs|
    ensures |entries| == |subs|
  {
    seq(|subs|, i requires 0 <= i < |subs| => families[i] + "/" + subs[i])
  }
}
