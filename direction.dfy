/** convert_file: which way to convert, decided from the file suffixes alone. */
module Direction {
  import opened Outcomes

  /** A resolved path: its parent directory and its final component. */
  datatype Path = Path(parent: string, name: string)

  /** The conversion convert_file runs. */
  datatype Conversion = ToBip(src: Path, dst: Path) | FromBip(src: Path, dst: Path)

  const BipSuffix: string := ".bip"
  const PngSuffix: string := ".png"

  /** Index of the last '.' in s, or -1 when there is none (str.rfind). */
  function LastDot(s: string): (i: int)
    ensures -1 <= i < |s|
    ensures i >= 0 ==> s[i] == '.'
    ensures forall j :: i < j < |s| ==> s[j] != '.'
  {
    if s == [] then -1
    else if s[|s| - 1] == '.' then |s| - 1
    else LastDot(s[..|s| - 1])
  }

  /** The name has a suffix when its last dot is neither its first nor its last character. */
  predicate HasSuffix(name: string)
  {
    0 < LastDot(name) < |name| - 1
  }

  /** PurePath.suffix: the name from its last dot on, or "" when it has no suffix. */
  function Suffix(name: string): (r: string)
    ensures r == "" || (2 <= |r| < |name| && r == name[|name| - |r|..] && r[0] == '.')
    ensures forall j :: 1 <= j < |r| ==> r[j] != '.'
  {
    if HasSuffix(name) then name[LastDot(name)..] else ""
  }

  /** The name without its suffix. */
  function Stem(name: string): string
  {
    if HasSuffix(name) then name[..LastDot(name)] else name
  }

  lemma StemAndSuffix(name: string)
    ensures Stem(name) + Suffix(name) == name
    ensures name != [] ==> Stem(name) != []
  {
  }

  function LowerChar(c: char): char
  {
    if 'A' <= c <= 'Z' then (c as int - 'A' as int + 'a' as int) as char else c
  }

  /** str.lower() on ASCII letters; every other character is kept. */
  function Lower(s: string): string
  {
    seq(|s|, i requires 0 <= i < |s| => LowerChar(s[i]))
  }

  /** path.suffix.lower() == '.bip' */
  predicate IsBip(p: Path)
  {
    Lower(Suffix(p.name)) == BipSuffix
  }

  /** The suffix test ignores case: .bip, .BIP, .Bip and the rest all count. */
  lemma IsBipIgnoresCase(p: Path)
    ensures IsBip(p) <==> var x := Suffix(p.name);
      && |x| == 4 && x[0] == '.'
      && (x[1] == 'b' || x[1] == 'B')
      && (x[2] == 'i' || x[2] == 'I')
      && (x[3] == 'p' || x[3] == 'P')
  {
    var x := Suffix(p.name);
    if |x| == 4 {
      assert Lower(x) == BipSuffix <==> forall i :: 0 <= i < 4 ==> LowerChar(x[i]) == BipSuffix[i];
    }
  }

  /** PurePath.with_suffix for a valid suffix: ValueError on an empty name,
      otherwise the old suffix, if any, is replaced. */
  function WithSuffix(p: Path, suffix: string): Result<Path>
  {
    if p.name == "" then Failure(EmptyName) else Success(Path(p.parent, Stem(p.name) + suffix))
  }

  /** The if / elif / else of convert_file. */
  function Select(src: Path, dst: Path, srcBip: bool, dstBip: bool): (r: Result<Conversion>)
    ensures r.Success? <==> srcBip != dstBip
    ensures r.Success? ==> r.value.src == src && r.value.dst == dst && (r.value.FromBip? <==> srcBip)
    ensures r.Failure? ==> r.error == AmbiguousDirection
  {
    if !srcBip && dstBip then Success(ToBip(src, dst))
    else if srcBip && !dstBip then Success(FromBip(src, dst))
    else Failure(AmbiguousDirection)
  }

  /** convert_file(src, dst): the conversion it runs, or the ValueError it raises
      before opening any file. */
  function ConvertFile(src: Path, dst: Option<Path>): (r: Result<Conversion>)
    ensures r.Success? ==> r.value.src == src && (r.value.FromBip? <==> IsBip(src))
    ensures r.Success? && dst.Some? ==> r.value.dst == dst.value
    ensures r.Failure? ==> if dst.Some? then r.error == AmbiguousDirection else r.error == EmptyName
  {
    var srcBip := IsBip(src);
    match dst
    case Some(d) => Select(src, d, srcBip, IsBip(d))
    case None =>
      match WithSuffix(src, if srcBip then PngSuffix else BipSuffix)
      case Failure(e) => Failure(e)
      case Success(d) => Select(src, d, srcBip, !srcBip)
  }

  /** With a destination given: decode exactly when only the source is BIP,
      encode exactly when only the destination is, and otherwise raise. */
  lemma DirectionRule(src: Path, dst: Path)
    ensures ConvertFile(src, Some(dst)) == Success(FromBip(src, dst)) <==> IsBip(src) && !IsBip(dst)
    ensures ConvertFile(src, Some(dst)) == Success(ToBip(src, dst)) <==> !IsBip(src) && IsBip(dst)
    ensures ConvertFile(src, Some(dst)) == Failure(AmbiguousDirection) <==> IsBip(src) == IsBip(dst)
    ensures ConvertFile(src, Some(dst)).Success? ==> ConvertFile(src, Some(dst)).value.src == src && ConvertFile(src, Some(dst)).value.dst == dst
  {
  }

  /** A four-character extension such as ".bip" becomes the suffix of any
      non-empty stem it is appended to. */
  lemma {:induction false} SuffixOfAppended(stem: string, ext: string)
    requires stem != [] && |ext| == 4 && ext[0] == '.'
    requires forall j :: 1 <= j < |ext| ==> ext[j] != '.'
    ensures Suffix(stem + ext) == ext
  {
    var s := stem + ext;
    var i := LastDot(s);
    assert s[|stem|] == '.';
    assert forall j :: |stem| < j < |s| ==> s[j] == ext[j - |stem|];
    assert i == |stem|;
    assert s[i..] == ext;
  }

  /** Without a destination: the source's suffix is swapped for .png when it
      is BIP and for .bip otherwise, and the direction is never ambiguous. */
  lemma DefaultDestination(src: Path)
    ensures src.name == "" ==> ConvertFile(src, None) == Failure(EmptyName)
    ensures src.name != "" && IsBip(src) ==>
      ConvertFile(src, None) == Success(FromBip(src, Path(src.parent, Stem(src.name) + PngSuffix)))
    ensures src.name != "" && !IsBip(src) ==>
      ConvertFile(src, None) == Success(ToBip(src, Path(src.parent, Stem(src.name) + BipSuffix)))
  {
  }

  /** The shortcut dst_bip = not src_bip agrees with the suffix test: the
      default destination is BIP exactly when the source is not, so omitting
      the destination behaves as passing it explicitly. */
  lemma DefaultAgreesWithSuffix(src: Path)
    requires src.name != ""
    ensures var d := Path(src.parent, Stem(src.name) + (if IsBip(src) then PngSuffix else BipSuffix));
      && IsBip(d) == !IsBip(src)
      && ConvertFile(src, None) == ConvertFile(src, Some(d))
  {
    StemAndSuffix(src.name);
    AppendedSuffixTest(src.parent, Stem(src.name));
  }

  /** Appending .bip to a non-empty stem gives a BIP name; appending .png does not. */
  lemma AppendedSuffixTest(parent: string, stem: string)
    requires stem != []
    ensures IsBip(Path(parent, stem + BipSuffix))
    ensures !IsBip(Path(parent, stem + PngSuffix))
  {
    SuffixOfAppended(stem, BipSuffix);
    SuffixOfAppended(stem, PngSuffix);
    assert Lower(BipSuffix) == BipSuffix;
    assert Lower(PngSuffix)[1] == 'p';
  }
}
