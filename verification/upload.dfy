/**
 Upload helpers (backend/utils.js): the extension allow-list check applied to
 the original file name, and best-effort removal of a staged upload.
 */
module Upload {
  import opened Strings
  import Config

  const Dot: char := '.'

  /**
   The extension that is checked: the last piece of the name split at dots,
   lower-cased. A name without a dot is taken whole.
   */
  function Extension(filename: string): (ext: string)
    ensures ext == Lower(filename[SegmentStart(filename, Dot)..])
    ensures Dot !in ext
  {
    SplitLastIsAfterLastSeparator(filename, Dot);
    Lower(Last(Split(filename, Dot)))
  }

  /** `allowedFileType`: the extension is one of the allowed entries. */
  function AllowedFileType(allowed: seq<string>, filename: string): (ok: bool)
    ensures ok <==> Lower(filename[SegmentStart(filename, Dot)..]) in allowed
  {
    Extension(filename) in allowed
  }

  /**
   `filename` ends, case-insensitively, in the extension `e`, which is either
   the whole name or follows a dot.
   */
  predicate EndsWithExtension(filename: string, e: string)
  {
    && |e| <= |filename|
    && Lower(filename[|filename| - |e|..]) == e
    && (|e| == |filename| || filename[|filename| - |e| - 1] == Dot)
  }

  lemma ExtensionEndsWith(filename: string)
    ensures EndsWithExtension(filename, Extension(filename))
  {
    var k := SegmentStart(filename, Dot);
    assert filename[|filename| - |Extension(filename)|..] == filename[k..];
  }

  lemma EndsWithIsExtension(filename: string, e: string)
    requires Dot !in e && EndsWithExtension(filename, e)
    ensures Extension(filename) == e
  {
    var k := SegmentStart(filename, Dot);
    var seg := filename[|filename| - |e|..];
    forall i | 0 <= i < |seg|
      ensures seg[i] != Dot
    {
      LowerCharKeepsSeparator(seg[i], Dot);
      assert Lower(seg)[i] == e[i];
    }
    assert IsLastSegment(filename, Dot, seg);
    assert IsLastSegment(filename, Dot, filename[k..]);
    LastSegmentUnique(filename, Dot, seg, filename[k..]);
  }

  /** The extension of a name is `e` exactly when the name ends in `e` as above. */
  lemma ExtensionIff(filename: string, e: string)
    requires Dot !in e
    ensures Extension(filename) == e <==> EndsWithExtension(filename, e)
  {
    if Extension(filename) == e {
      ExtensionEndsWith(filename);
    }
    if EndsWithExtension(filename, e) {
      EndsWithIsExtension(filename, e);
    }
  }

  /**
   A name is accepted exactly when it ends, case-insensitively, in one of the
   allowed extensions, as the whole name or after a dot.
   */
  lemma AllowedIff(allowed: seq<string>, filename: string)
    requires forall e :: e in allowed ==> Dot !in e
    ensures AllowedFileType(allowed, filename) <==> exists e :: e in allowed && EndsWithExtension(filename, e)
  {
    if AllowedFileType(allowed, filename) {
      ExtensionIff(filename, Extension(filename));
    }
    forall e | e in allowed && EndsWithExtension(filename, e)
      ensures AllowedFileType(allowed, filename)
    {
      ExtensionIff(filename, e);
    }
  }

  /** Lower-casing the whole name first gives the same extension, hence the same verdict. */
  lemma CaseInsensitive(filename: string)
    ensures Extension(Lower(filename)) == Extension(filename)
    ensures forall allowed :: AllowedFileType(allowed, Lower(filename)) == AllowedFileType(allowed, filename)
  {
    var k := SegmentStart(filename, Dot);
    LowerKeepsSegmentStart(filename, Dot);
    assert Lower(filename)[k..] == Lower(filename[k..]);
    LowerIdempotent(filename[k..]);
  }

  /** Only the final segment counts: everything up to the last dot is ignored. */
  lemma OnlyLastSegmentMatters(prefix: string, tail: string)
    requires Dot !in tail
    ensures Extension(prefix + [Dot] + tail) == Lower(tail)
    ensures Extension(tail) == Lower(tail)
  {
    SegmentStartAfterSeparator(prefix, Dot, tail);
    assert (prefix + [Dot] + tail)[|prefix| + 1..] == tail;
    SegmentStartWithoutSeparator(tail, Dot);
  }

  /** An empty name or one ending in a dot has the empty extension and is rejected. */
  lemma EmptyExtensionRejected(allowed: seq<string>, filename: string)
    requires filename == [] || filename[|filename| - 1] == Dot
    requires "" !in allowed
    ensures Extension(filename) == ""
    ensures !AllowedFileType(allowed, filename)
  {
  }

  /** A lower-case, dot-free `tail` after the last dot is the extension itself. */
  lemma ExtensionOfLowerCaseTail(prefix: string, tail: string)
    requires Dot !in tail
    requires forall i :: 0 <= i < |tail| ==> !('A' <= tail[i] <= 'Z')
    ensures Extension(prefix + [Dot] + tail) == tail
  {
    OnlyLastSegmentMatters(prefix, tail);
    LowerOfLowerCase(tail);
  }

  lemma ExtensionUpperPng(prefix: string)
    ensures Extension(prefix + ".PNG") == "png"
  {
    assert prefix + ".PNG" == prefix + [Dot] + "PNG";
    OnlyLastSegmentMatters(prefix, "PNG");
    assert Lower("PNG") == "png" by {
      assert LowerChar('P') == 'p' && LowerChar('N') == 'n' && LowerChar('G') == 'g';
    }
  }

  /** Names whose last segment is a listed extension are accepted, whatever precedes the last dot. */
  lemma ConfiguredAccepts(prefix: string)
    ensures AllowedFileType(Config.AllowedExtensions, prefix + ".png")
    ensures AllowedFileType(Config.AllowedExtensions, prefix + ".webp")
  {
    assert prefix + ".png" == prefix + [Dot] + "png";
    ExtensionOfLowerCaseTail(prefix, "png");
    assert prefix + ".webp" == prefix + [Dot] + "webp";
    ExtensionOfLowerCaseTail(prefix, "webp");
    assert Config.AllowedExtensions[0] == "png" && Config.AllowedExtensions[3] == "webp";
  }

  /** The check ignores case: `a.PNG` is accepted like `a.png`. */
  lemma ConfiguredAcceptsUpperCase(prefix: string)
    ensures AllowedFileType(Config.AllowedExtensions, prefix + ".PNG")
  {
    ExtensionUpperPng(prefix);
    assert Config.AllowedExtensions[0] == "png";
  }

  /** A name without a dot is its own extension: a bare `png` is accepted. */
  lemma ConfiguredAcceptsBareName()
    ensures AllowedFileType(Config.AllowedExtensions, "png")
  {
    OnlyLastSegmentMatters("", "png");
    assert Lower("png") == "png";
    assert Config.AllowedExtensions[0] == "png";
  }

  /**
   Names whose last segment is not listed are rejected, whatever precedes the
   last dot: `x.png.exe`, `a.gif`, a trailing dot and the empty name.
   */
  lemma ConfiguredRejects(prefix: string)
    ensures !AllowedFileType(Config.AllowedExtensions, prefix + ".gif")
    ensures !AllowedFileType(Config.AllowedExtensions, prefix + ".exe")
    ensures !AllowedFileType(Config.AllowedExtensions, prefix + ".")
    ensures !AllowedFileType(Config.AllowedExtensions, "")
  {
    assert prefix + ".gif" == prefix + [Dot] + "gif";
    ExtensionOfLowerCaseTail(prefix, "gif");
    assert prefix + ".exe" == prefix + [Dot] + "exe";
    ExtensionOfLowerCaseTail(prefix, "exe");
    EmptyExtensionRejected(Config.AllowedExtensions, prefix + ".");
    EmptyExtensionRejected(Config.AllowedExtensions, "");
  }

  /** The effect of one best-effort removal on the set of staged paths. */
  datatype Removal = Removal(staged: set<string>, errorLogged: bool)

  /**
   `removeUploadedFile`: deletes the path if it is staged. A failed delete
   (here: the path is not staged) is only logged; the caller sees no error.
   */
  function RemoveUploadedFile(staged: set<string>, path: string): (r: Removal)
    ensures path !in r.staged
    ensures forall p :: p != path ==> (p in r.staged <==> p in staged)
    ensures r.errorLogged <==> path !in staged
  {
    Removal(staged - {path}, path !in staged)
  }

}
