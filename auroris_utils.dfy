/**
 * Image paths in the curation reports: the `src` the HTML broadcaster puts in
 * an image tag, and the link `save_image` returns after writing an image.
 */
module AurorisUtils {
  import opened Wrappers
  import opened Text

  const GcsScheme: string := "gs://"
  const GcsHttps: string := "https://storage.googleapis.com/"

  /** Every occurrence of the gs scheme replaced by the public storage URL prefix. */
  function GcsToHttps(path: string): (r: string)
  {
    ReplaceAll(path, GcsScheme, GcsHttps)
  }

  /** A gs path keeps its bucket and key: only the scheme becomes the public storage host. */
  lemma {:induction false} GcsToHttpsKeepsKey(rest: string)
    requires !Contains(rest, GcsScheme)
    ensures GcsToHttps(GcsScheme + rest) == GcsHttps + rest
  {
    var s := GcsScheme + rest;
    assert s[..|GcsScheme|] == GcsScheme;
    assert s[|GcsScheme|..] == rest;
    ReplaceAbsent(rest, GcsScheme, GcsHttps);
  }

  /** A path without "gs://" is left alone. */
  lemma GcsToHttpsNoScheme(path: string)
    requires !Contains(path, GcsScheme)
    ensures GcsToHttps(path) == path
  {
    ReplaceAbsent(path, GcsScheme, GcsHttps);
  }

  /** The HTML report broadcaster, exporting to the folder `destination`. */
  datatype Broadcaster = Broadcaster(destination: string)
  {
    /**
     * `_img_to_html_src`: the public https link of a gs image, the path of a
     * local image relative to the destination, and a ValueError for any other
     * protocol. `protocol` stands for `get_protocol` and `relpath` for
     * `os.path.relpath`.
     */
    function ImgToHtmlSrc(path: string, protocol: string -> string, relpath: (string, string) -> string)
      : (r: Result<string, string>)
      ensures r.Err? <==> protocol(path) != "gs" && protocol(path) != "file"
      ensures protocol(path) == "gs" ==> r.Ok? && r.value == GcsToHttps(path)
      ensures protocol(path) == "file" ==> r.Ok? && r.value == relpath(path, destination)
      ensures r.Err? ==> r.error == "We only support images hosted in GCP or locally"
    {
      if protocol(path) == "gs" then Ok(GcsToHttps(path))
      else if protocol(path) == "file" then Ok(relpath(path, destination))
      else Err("We only support images hosted in GCP or locally")
    }
  }

  /** The value `save_image` returns once the image is written: the https link for gs, else the path itself. */
  function SaveImage(path: string, protocol: string -> string): (r: string)
    ensures protocol(path) != "gs" ==> r == path
  {
    if protocol(path) == "gs" then GcsToHttps(path) else path
  }

  /** For a gs image, what `save_image` returns is the `src` the broadcaster would give it. */
  lemma SaveImageAgrees(b: Broadcaster, path: string, protocol: string -> string, relpath: (string, string) -> string)
    requires protocol(path) == "gs"
    ensures b.ImgToHtmlSrc(path, protocol, relpath) == Ok(SaveImage(path, protocol))
  {
  }

  /** A gs image whose bucket and key hold no ':' is linked from the public storage host under the same bucket and key. */
  lemma SaveImageGcs(rest: string, protocol: string -> string)
    requires protocol(GcsScheme + rest) == "gs" && ':' !in rest
    ensures SaveImage(GcsScheme + rest, protocol) == GcsHttps + rest
  {
    NoSchemeWithoutColon(rest);
    GcsToHttpsKeepsKey(rest);
  }

  /** A text without ':' holds no "gs://". */
  lemma NoSchemeWithoutColon(rest: string)
    requires ':' !in rest
    ensures !Contains(rest, GcsScheme)
  {
    forall i: nat | i <= |rest| ensures !OccursAt(rest, GcsScheme, i) {
      if i + 5 <= |rest| {
        assert rest[i..i + 5][2] == rest[i + 2];
      }
    }
  }
}
