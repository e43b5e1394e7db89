/** The extension-to-MIME table of index.js and `parseMime`, which looks a
    URL's extension up in it. */
module Mime {
  import opened Optional
  import opened NodePath

  /** The `mimes` object: extension (without its dot) and MIME type, in the
      order the object literal lists them. */
  const MimeEntries: seq<(string, string)> := [
    ("css", "text/css"),
    ("less", "text/css"),
    ("gif", "image/gif"),
    ("html", "text/html"),
    ("ico", "image/x-icon"),
    ("jpeg", "image/jpeg"),
    ("jpg", "image/jpeg"),
    ("js", "text/javascript"),
    ("json", "application/json"),
    ("pdf", "application/pdf"),
    ("png", "image/png"),
    ("svg", "image/svg+xml"),
    ("swf", "application/x-shockwave-flash"),
    ("tiff", "image/tiff"),
    ("txt", "text/plain"),
    ("wav", "audio/x-wav"),
    ("wma", "audio/x-ms-wma"),
    ("wmv", "video/x-ms-wmv"),
    ("xml", "text/xml")
  ]

  /** The key `parseMime` uses for a URL without an extension. */
  const UnknownKey := "unknown"

  /** The value of the first entry whose key is `key`, or None when no entry
      has that key. */
  function Find(entries: seq<(string, string)>, key: string): Option<string>
  {
    if entries == [] then None
    else if entries[0].0 == key then Some(entries[0].1)
    else Find(entries[1..], key)
  }

  /** `mimes[key]`: the table entry, or None (`undefined`). */
  function Lookup(key: string): Option<string>
  {
    Find(MimeEntries, key)
  }

  /** `parseMime(url)`: the table entry for the URL's extension without its
      dot, or for UnknownKey when the URL has no extension. */
  function ParseMime(url: string): Option<string>
  {
    var ext := ExtName(url);
    Lookup(if ext != "" then ext[1..] else UnknownKey)
  }

  /** Find gives the value of an entry with that key, and None only when no
      entry has that key. */
  lemma {:induction false} FindSpec(entries: seq<(string, string)>, key: string)
    ensures var r := Find(entries, key);
      && (r.Some? ==> (key, r.value) in entries)
      && (r.None? <==> forall i :: 0 <= i < |entries| ==> entries[i].0 != key)
  {
    if entries != [] && entries[0].0 != key {
      FindSpec(entries[1..], key);
      assert forall i :: 0 < i < |entries| ==> entries[i] == entries[1..][i - 1];
    }
  }

  /** In a table with distinct keys, an entry's key finds that entry. */
  lemma {:induction false} FindDistinct(entries: seq<(string, string)>, i: int)
    requires 0 <= i < |entries|
    requires forall a, b :: 0 <= a < b < |entries| ==> entries[a].0 != entries[b].0
    ensures Find(entries, entries[i].0) == Some(entries[i].1)
  {
    if i > 0 {
      assert entries[1..][i - 1] == entries[i];
      FindDistinct(entries[1..], i - 1);
    }
  }

  /** No key is listed twice, so every entry of the table is what its
      extension looks up. */
  lemma LookupFindsEntry(i: int)
    requires 0 <= i < |MimeEntries|
    ensures forall a, b :: 0 <= a < b < |MimeEntries| ==> MimeEntries[a].0 != MimeEntries[b].0
    ensures Lookup(MimeEntries[i].0) == Some(MimeEntries[i].1)
  {
    assert forall a, b :: 0 <= a < b < |MimeEntries| ==> MimeEntries[a].0 != MimeEntries[b].0;
    FindDistinct(MimeEntries, i);
  }

  /** Every extension in the table has two to four characters, so a key of
      another length, such as UnknownKey or the empty extension, has no entry. */
  lemma NoEntryOfOtherLength(key: string)
    requires |key| < 2 || 4 < |key|
    ensures Lookup(key) == None
  {
    assert forall i :: 0 <= i < |MimeEntries| ==> 2 <= |MimeEntries[i].0| <= 4;
    FindSpec(MimeEntries, key);
  }

  /** `parseMime` gives `undefined` or a type the table lists for the URL's
      extension; a URL without extension always gets `undefined`, because
      the table has no entry for UnknownKey. */
  lemma ParseMimeIsTableEntry(url: string)
    ensures var ext, r := ExtName(url), ParseMime(url);
      && (ext == "" ==> r == None)
      && (r.Some? ==> ext != "" && (ext[1..], r.value) in MimeEntries)
      && (ext != "" && r == None ==> forall i :: 0 <= i < |MimeEntries| ==> MimeEntries[i].0 != ext[1..])
  {
    var ext := ExtName(url);
    if ext == "" {
      NoEntryOfOtherLength(UnknownKey);
    } else {
      FindSpec(MimeEntries, ext[1..]);
    }
  }

  /** The file `stem.ext` is served with the type the table gives `ext`,
      whatever directory it is in and whether or not `ext` is registered. */
  lemma ParseMimeOfFileName(dir: string, name: string, stem: string, ext: string)
    requires name == stem + "." + ext
    requires stem != [] && '/' !in stem
    requires '/' !in ext && '.' !in ext
    ensures ParseMime(dir + "/" + name) == Lookup(ext)
  {
    ExtNameOfFileName(dir, name, stem, ext);
    if stem == "." && ext == "" {
      NoEntryOfOtherLength(UnknownKey);
      NoEntryOfOtherLength("");
    }
  }

  /** A file name without a dot has no registered type. */
  lemma ParseMimeWithoutExtension(dir: string, name: string)
    requires name != [] && '/' !in name && '.' !in name
    ensures ParseMime(dir + "/" + name) == None
  {
    ExtNameWithoutDot(dir, name);
    NoEntryOfOtherLength(UnknownKey);
  }

  /** `.css` and `.less` files are both served as `text/css`. */
  lemma CssAndLessAreStylesheets(dir: string, stem: string)
    requires stem != [] && '/' !in stem
    ensures ParseMime(dir + "/" + (stem + ".css")) == Some("text/css")
    ensures ParseMime(dir + "/" + (stem + ".less")) == Some("text/css")
  {
    assert stem + ".css" == stem + "." + "css";
    assert stem + ".less" == stem + "." + "less";
    ParseMimeOfFileName(dir, stem + ".css", stem, "css");
    ParseMimeOfFileName(dir, stem + ".less", stem, "less");
    assert Lookup("css") == Some("text/css") && Lookup("less") == Some("text/css");
  }

  /** A query string is part of the extension `parseMime` looks up, so a URL
      such as `/style.css?v=2` gets no type. */
  lemma QueryStringHidesType()
    ensures ParseMime("/style.css?v=2") == None
  {
    assert "style.css?v=2" == "style" + "." + "css?v=2";
    assert "/style.css?v=2" == "" + "/" + "style.css?v=2";
    ParseMimeOfFileName("", "style.css?v=2", "style", "css?v=2");
    NoEntryOfOtherLength("css?v=2");
  }
}
