/**
 * File-extension extraction (`get_file_ext` in utils.py):
 * `file_name.rsplit('.', 1)[1].lower()`.
 * Lower-casing is modelled on ASCII letters only.
 */
module FileExt {
  import opened Wrappers

  predicate IsUpper(c: char) {
    'A' <= c <= 'Z'
  }

  function LowerChar(c: char): char {
    if IsUpper(c) then (c as int + 32) as char else c
  }

  /** `str.lower()` on ASCII: every upper-case letter replaced by its lower-case form. */
  function Lower(s: string): string {
    seq(|s|, i requires 0 <= i < |s| => LowerChar(s[i]))
  }

  /** The index `rsplit('.', 1)` splits at: the position of the last '.', if any. */
  function LastDot(s: string): (r: Option<nat>)
    ensures r.None? <==> '.' !in s
    ensures r.Some? ==> r.value < |s| && s[r.value] == '.' && '.' !in s[r.value + 1..]
  {
    if s == [] then None
    else if s[|s| - 1] == '.' then Some(|s| - 1)
    else
      var r := LastDot(s[..|s| - 1]);
      assert s == s[..|s| - 1] + [s[|s| - 1]];
      r
  }

  /**
   * The extension of `name`: the lower-cased text after its last '.'.
   * A name without '.' has no second piece after `rsplit`, so indexing it by 1
   * fails; that failure is `None`.
   */
  function GetFileExt(name: string): (r: Option<string>)
    ensures r.None? <==> '.' !in name
  {
    match LastDot(name)
    case None => None
    case Some(k) => Some(Lower(name[k + 1..]))
  }

  /** For a name with a '.', the extension is the lower-cased text after its last '.'. */
  lemma ExtAfterLastDot(name: string, k: nat)
    requires k < |name| && name[k] == '.' && '.' !in name[k + 1..]
    ensures GetFileExt(name) == Some(Lower(name[k + 1..]))
  {
    var d := LastDot(name).value;
    assert d == k;
  }

  /** Only the final dot splits: for a dot-free `ext`, `base + "." + ext` has extension `Lower(ext)`. */
  lemma ExtOfJoin(base: string, ext: string)
    requires '.' !in ext
    ensures GetFileExt(base + "." + ext) == Some(Lower(ext))
  {
    var s := base + "." + ext;
    assert s[|base| + 1..] == ext;
    ExtAfterLastDot(s, |base|);
  }

  /** "a.tar.MP4" has extension "mp4": the split is at the last dot and the result is lower-cased. */
  lemma DoubleExtensionExample()
    ensures GetFileExt("a.tar.MP4") == Some("mp4")
  {
    assert "a.tar.MP4" == "a.tar" + "." + "MP4";
    assert '.' !in "MP4";
    ExtOfJoin("a.tar", "MP4");
    LowerOfMp4();
  }

  lemma LowerOfMp4()
    ensures Lower("MP4") == "mp4"
  {
    assert LowerChar('M') == 'm';
  }

  /** A name that ends in '.' has the empty extension. */
  lemma TrailingDotGivesEmpty(base: string)
    ensures GetFileExt(base + ".") == Some("")
  {
    ExtOfJoin(base, "");
    assert base + "." + "" == base + ".";
    assert Lower("") == "";
  }

  /** The extension never contains '.'. */
  lemma ExtHasNoDot(name: string)
    requires GetFileExt(name).Some?
    ensures '.' !in GetFileExt(name).value
  {
    var k := LastDot(name).value;
    var tail := name[k + 1..];
    var e := GetFileExt(name).value;
    assert e == Lower(tail);
    forall i | 0 <= i < |e|
      ensures e[i] != '.'
    {
      assert tail[i] in tail;
    }
  }

  /** The extension has no upper-case letter, so lower-casing it again changes nothing. */
  lemma ExtIsLowerCase(name: string)
    requires GetFileExt(name).Some?
    ensures forall c :: c in GetFileExt(name).value ==> !IsUpper(c)
    ensures Lower(GetFileExt(name).value) == GetFileExt(name).value
  {
    var k := LastDot(name).value;
    var e := GetFileExt(name).value;
    assert e == Lower(name[k + 1..]);
    LowerIdempotent(name[k + 1..]);
  }

  lemma LowerIdempotent(s: string)
    ensures forall c :: c in Lower(s) ==> !IsUpper(c)
    ensures Lower(Lower(s)) == Lower(s)
  {
  }

  /** A string with no upper-case letter is its own lower-case form. */
  lemma LowerOfLowerCase(s: string)
    requires forall c :: c in s ==> !IsUpper(c)
    ensures Lower(s) == s
  {
  }
}
