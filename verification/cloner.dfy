/** `AssemblyCloner`: the version-information strings of the input file,
    each defaulting to "" on its own, the title cut from `InternalName`, and
    the icon picked by a running "strictly taller and strictly wider" test.
    The platform sources (`FileVersionInfo`, `IconExtractor`) are given as
    values. */
module Cloner {
  import opened Results

  /** The `FileVersionInfo` strings the getters read. */
  datatype VersionField =
    | CompanyName | FileVersion | LegalCopyright | FileDescription | ProductName | LegalTrademarks

  /** The file's version information; None stands for a null string. */
  datatype VersionInfo = VersionInfo(strings: VersionField -> Option<string>, internalName: Option<string>)

  /** The `string.IsNullOrEmpty` test of every getter. */
  function OrEmpty(v: Option<string>): string {
    match v
    case Some(s) => if s != "" then s else ""
    case None => ""
  }

  /** The getter of one field: Company, Version, Copyright, Description,
      Product and Trademark all follow this rule. */
  function Field(info: VersionInfo, f: VersionField): string {
    OrEmpty(info.strings(f))
  }

  /** A getter never yields null: it returns the field when the field is set
      and non-empty, and "" exactly when the field is null or empty. */
  lemma FieldDefaultsToEmpty(info: VersionInfo, f: VersionField)
    ensures var v := info.strings(f);
            && (v.Some? && v.value != "" ==> Field(info, f) == v.value)
            && (Field(info, f) == "" <==> v.None? || v.value == "")
  {
  }

  function WithField(info: VersionInfo, f: VersionField, v: Option<string>): VersionInfo {
    info.(strings := g => if g == f then v else info.strings(g))
  }

  /** Fields are read independently: changing one of them, even to null,
      changes no other getter's result. */
  lemma FieldsIndependent(info: VersionInfo, f: VersionField, v: Option<string>, g: VersionField)
    ensures Field(WithField(info, f, v), g) == if g == f then OrEmpty(v) else Field(info, g)
  {
  }

  /** `s.Split('.')[0]`: the part of `s` before its first '.'. */
  function BeforeFirstDot(s: string): (t: string)
    ensures '.' !in t
    ensures t <= s
    ensures |t| < |s| ==> s[|t|] == '.'
  {
    if |s| == 0 || s[0] == '.' then "" else [s[0]] + BeforeFirstDot(s[1..])
  }

  /** `Title`. None when `InternalName` is null, where `Split` throws. */
  function Title(info: VersionInfo): (r: Option<string>)
    ensures r.None? <==> info.internalName.None?
    ensures r.Some? ==> '.' !in r.value && r.value <= info.internalName.value
    ensures r.Some? && '.' !in info.internalName.value ==> r.value == info.internalName.value
    ensures r.Some? ==> var name := info.internalName.value;
                        |r.value| < |name| ==> name[|r.value|] == '.'
    ensures r.Some? ==> r.value == BeforeFirstDot(info.internalName.value)
  {
    match info.internalName
    case None => None
    case Some(name) => Some(OrEmpty(Some(BeforeFirstDot(name))))
  }

  /** The values `CopyAssembly` reads from the cloner. */
  datatype Metadata = Metadata(
    title: string,
    description: string,
    company: string,
    product: string,
    copyright: string,
    version: string,
    trademark: string)

  /** All metadata, or None when reading the title throws. */
  function Clone(info: VersionInfo): (r: Option<Metadata>)
    ensures r.None? <==> info.internalName.None?
    ensures r.Some? ==> && Title(info) == Some(r.value.title)
                        && r.value.description == Field(info, FileDescription)
                        && r.value.company == Field(info, CompanyName)
                        && r.value.product == Field(info, ProductName)
                        && r.value.copyright == Field(info, LegalCopyright)
                        && r.value.version == Field(info, FileVersion)
                        && r.value.trademark == Field(info, LegalTrademarks)
  {
    match Title(info)
    case None => None
    case Some(title) =>
      Some(Metadata(title, Field(info, FileDescription), Field(info, CompanyName),
                    Field(info, ProductName), Field(info, LegalCopyright),
                    Field(info, FileVersion), Field(info, LegalTrademarks)))
  }

  /** An icon as far as the selection sees it. */
  datatype Icon = Icon(height: int, width: int)

  /** What `IconExtractor.GetAllIcons` yields, or the fact that it threw. */
  datatype IconSource = Icons(all: seq<Icon>) | ExtractionFailed

  const Int32Min: int := -0x8000_0000

  /** The icon loop from position `i` on, carrying `ret`, `height` and `width`. */
  function IconFrom(icons: seq<Icon>, i: nat, ret: Option<Icon>, height: int, width: int): Option<Icon>
    requires i <= |icons|
    decreases |icons| - i
  {
    if i == |icons| then ret
    else if icons[i].height <= height || icons[i].width <= width then IconFrom(icons, i + 1, ret, height, width)
    else IconFrom(icons, i + 1, Some(icons[i]), icons[i].height, icons[i].width)
  }

  /** The `Icon` getter: null when extraction throws. */
  function SelectIcon(src: IconSource): Option<Icon> {
    match src
    case ExtractionFailed => None
    case Icons(all) => IconFrom(all, 0, None, Int32Min, Int32Min)
  }

  /** The successive picks of the loop, starting from the given bounds: each
      comes from the list and exceeds the bounds, and each is strictly taller
      and strictly wider than the one before. */
  function Picks(icons: seq<Icon>, height: int, width: int): (ps: seq<Icon>)
    ensures forall k :: 0 <= k < |ps| ==> ps[k] in icons
    ensures forall k :: 0 <= k < |ps| ==> ps[k].height > height && ps[k].width > width
    ensures forall k :: 0 < k < |ps| ==> ps[k - 1].height < ps[k].height && ps[k - 1].width < ps[k].width
    decreases |icons|
  {
    if |icons| == 0 then []
    else if icons[0].height <= height || icons[0].width <= width then Picks(icons[1..], height, width)
    else [icons[0]] + Picks(icons[1..], icons[0].height, icons[0].width)
  }

  /** The last icon of `ps`, or `otherwise` when there is none. */
  function LastOr(ps: seq<Icon>, otherwise: Option<Icon>): Option<Icon> {
    if ps == [] then otherwise else Some(ps[|ps| - 1])
  }

  lemma {:induction false} IconFromIsLastPick(icons: seq<Icon>, i: nat, ret: Option<Icon>, height: int, width: int)
    requires i <= |icons|
    ensures IconFrom(icons, i, ret, height, width) == LastOr(Picks(icons[i..], height, width), ret)
    decreases |icons| - i
  {
    if i < |icons| {
      var tail := icons[i + 1..];
      assert icons[i..][1..] == tail;
      if icons[i].height <= height || icons[i].width <= width {
        IconFromIsLastPick(icons, i + 1, ret, height, width);
      } else {
        IconFromIsLastPick(icons, i + 1, Some(icons[i]), icons[i].height, icons[i].width);
        var rest := Picks(tail, icons[i].height, icons[i].width);
        assert LastOr([icons[i]] + rest, ret) == LastOr(rest, Some(icons[i]));
      }
    }
  }

  /** The icon returned is the last of the picks, which are strictly
      increasing in both dimensions, so it is strictly taller and wider than
      every earlier pick. It always comes from the list. Extraction failure
      and an empty list give null; a list whose first icon exceeds
      `int.MinValue` in both dimensions gives an icon. */
  lemma SelectIconIsLastPick(src: IconSource)
    ensures var r := SelectIcon(src);
            && (src.ExtractionFailed? ==> r.None?)
            && (src.Icons? && |src.all| == 0 ==> r.None?)
            && (src.Icons? && |src.all| > 0 && src.all[0].height > Int32Min && src.all[0].width > Int32Min ==> r.Some?)
            && (r.Some? ==> src.Icons? && r.value in src.all)
            && (r.Some? ==> var ps := Picks(src.all, Int32Min, Int32Min);
                  |ps| > 0 && r.value == ps[|ps| - 1]
                  && forall k :: 0 <= k < |ps| - 1 ==> ps[k].height < r.value.height && ps[k].width < r.value.width)
  {
    if src.Icons? {
      IconFromIsLastPick(src.all, 0, None, Int32Min, Int32Min);
      assert src.all[0..] == src.all;
      var ps := Picks(src.all, Int32Min, Int32Min);
      forall k | 0 <= k < |ps| - 1
        ensures ps[k].height < ps[|ps| - 1].height && ps[k].width < ps[|ps| - 1].width
      {
        PicksIncreasing(ps, Int32Min, Int32Min, src.all, k);
      }
    }
  }

  /** The loop from position `i` on, when `ret` carries the bounds and every
      icon before `i` is no taller or no wider than them: the icon returned is
      no taller or no wider than every icon of the list, and nothing is
      returned only when no icon exceeds the starting bounds in both
      dimensions. */
  lemma {:induction false} IconFromMaximal(icons: seq<Icon>, i: nat, ret: Option<Icon>, height: int, width: int)
    requires i <= |icons|
    requires ret.Some? ==> ret.value.height == height && ret.value.width == width
    requires forall j :: 0 <= j < i ==> icons[j].height <= height || icons[j].width <= width
    ensures var r := IconFrom(icons, i, ret, height, width);
            r.Some? ==> forall j :: 0 <= j < |icons| ==> icons[j].height <= r.value.height || icons[j].width <= r.value.width
    ensures var r := IconFrom(icons, i, ret, height, width);
            r.None? ==> ret.None? && forall j :: 0 <= j < |icons| ==> icons[j].height <= height || icons[j].width <= width
    decreases |icons| - i
  {
    if i < |icons| {
      if icons[i].height <= height || icons[i].width <= width {
        IconFromMaximal(icons, i + 1, ret, height, width);
      } else {
        IconFromMaximal(icons, i + 1, Some(icons[i]), icons[i].height, icons[i].width);
      }
    }
  }

  /** The icon returned is a largest one: no icon of the list is both
      strictly taller and strictly wider. Null comes back from a readable
      list only when no icon exceeds `int.MinValue` in both dimensions. */
  lemma SelectIconIsMaximal(src: IconSource)
    ensures var r := SelectIcon(src);
            r.Some? ==> forall j :: 0 <= j < |src.all| ==> !(src.all[j].height > r.value.height && src.all[j].width > r.value.width)
    ensures var r := SelectIcon(src);
            src.Icons? && r.None? ==> forall j :: 0 <= j < |src.all| ==> src.all[j].height <= Int32Min || src.all[j].width <= Int32Min
  {
    if src.Icons? {
      IconFromMaximal(src.all, 0, None, Int32Min, Int32Min);
    }
  }

  lemma {:induction false} PicksIncreasing(ps: seq<Icon>, height: int, width: int, icons: seq<Icon>, k: nat)
    requires ps == Picks(icons, height, width)
    requires k < |ps| - 1
    ensures ps[k].height < ps[|ps| - 1].height && ps[k].width < ps[|ps| - 1].width
    decreases |ps| - k
  {
    if k < |ps| - 2 {
      PicksIncreasing(ps, height, width, icons, k + 1);
    }
  }
}
