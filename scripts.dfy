/** The download scripts of a mod list: `sanitizeListName`, the steamcmd
    scripts `generateBatScript` and `generateShScript`, and the id filter
    `importListFromFile` applies to the entries of an imported list. */
module Scripts {
  import opened Strings

  /** An entry of a mod list, as the list stores it. */
  datatype ListMod = ListMod(id: string, name: string)

  /** A user mod list: its name, the game it belongs to and its entries. */
  datatype ModList = ModList(name: string, appid: string, mods: seq<ListMod>)

  // ---------------------------------------------------------------------
  // sanitizeListName

  /** `[\wа-яА-ЯёЁ-]`: the characters a folder name keeps. */
  predicate IsNameChar(c: char) {
    || IsWordChar(c) || ('\U{0430}' <= c <= '\U{044F}') || ('\U{0410}' <= c <= '\U{042F}')
    || c == '\U{0451}' || c == '\U{0401}' || c == '-'
  }

  /** `s.replace(/\s+/g, '_')`: every maximal run of whitespace becomes one
      underscore. */
  function UnderscoreSpaces(s: string): (r: string)
    decreases |s|
    ensures |r| <= |s|
  {
    if |s| == 0 then ""
    else if IsSpace(s[0]) then "_" + UnderscoreSpaces(s[RunEnd(s, 0, IsSpace)..])
    else [s[0]] + UnderscoreSpaces(s[1..])
  }

  /** `s.replace(/[^\wа-яА-ЯёЁ-]/g, '_')`. */
  function UnderscoreOthers(s: string): (r: string)
    ensures |r| == |s|
  {
    seq(|s|, k requires 0 <= k < |s| => if IsNameChar(s[k]) then s[k] else '_')
  }

  /** `sanitizeListName(name)`: `'mods'` for an empty name, then trimmed,
      whitespace runs and every other character outside the class turned
      into underscores. */
  function SanitizeListName(name: string): string {
    var base := if name == "" then "mods" else name;
    UnderscoreOthers(UnderscoreSpaces(Trim(base)))
  }

  /** A sanitized name holds only characters of the class, so no
      whitespace and no line break. */
  lemma SanitizedChars(name: string)
    ensures forall k :: 0 <= k < |SanitizeListName(name)| ==> IsNameChar(SanitizeListName(name)[k])
    ensures Excludes(SanitizeListName(name), '\n') && NoSpaces(SanitizeListName(name))
  {
  }

  /** A name of class characters only has no whitespace, so the two
      replacements leave it as it is. */
  lemma {:induction false} UnderscoreSpacesClean(s: string)
    requires NoSpaces(s)
    ensures UnderscoreSpaces(s) == s
  {
    if |s| > 0 {
      assert NoSpaces(s[1..]) by {
        assert forall k :: 0 <= k < |s| - 1 ==> s[1..][k] == s[k + 1];
      }
      UnderscoreSpacesClean(s[1..]);
      assert [s[0]] + s[1..] == s;
    }
  }

  /** A non-empty name made of class characters is its own folder name. */
  lemma SanitizeClean(name: string)
    requires name != ""
    requires forall k :: 0 <= k < |name| ==> IsNameChar(name[k])
    ensures SanitizeListName(name) == name
  {
    assert NoSpaces(name);
    TrimMeaning(name);
    UnderscoreSpacesClean(name);
  }

  /** Sanitizing a second time changes nothing, unless the first gave the
      empty name (a name of whitespace only), which then becomes `mods`. */
  lemma SanitizeIdempotent(name: string)
    requires SanitizeListName(name) != ""
    ensures SanitizeListName(SanitizeListName(name)) == SanitizeListName(name)
  {
    SanitizedChars(name);
    SanitizeClean(SanitizeListName(name));
  }

  // ---------------------------------------------------------------------
  // generateShScript / generateBatScript

  /** The `+workshop_download_item` line of one entry, with the line
      continuation `cont`. */
  function ItemLine(appid: string, m: ListMod, cont: string): string {
    "  +workshop_download_item " + appid + " " + m.id + " " + cont
  }

  function ItemLines(appid: string, mods: seq<ListMod>, cont: string): (r: seq<string>)
    ensures |r| == |mods|
  {
    seq(|mods|, k requires 0 <= k < |mods| => ItemLine(appid, mods[k], cont))
  }

  /** The five lines of the shell script before the entries. */
  function ShHeader(folder: string): (r: seq<string>)
    ensures |r| == 5
  {
    ["#!/bin/bash",
     "LIST_NAME=\"" + folder + "\"",
     "./steamcmd.sh \\",
     "  +login anonymous \\",
     "  +force_install_dir " + "\"$HOME/steamcmd/mods/$LIST_NAME\" \\"]
  }

  /** The lines of `generateShScript(list)`. */
  function ShLines(list: ModList): (r: seq<string>)
    ensures |r| == |list.mods| + 6
  {
    ShHeader(SanitizeListName(list.name)) + ItemLines(list.appid, list.mods, "\\") + ["  +quit"]
  }

  /** `generateShScript(list)`: the lines joined with `\n`. */
  function ShScript(list: ModList): string {
    Join(ShLines(list), "\n")
  }

  /** The five lines of the batch script before the entries. */
  function BatHeader(folder: string): (r: seq<string>)
    ensures |r| == 5
  {
    ["@echo off",
     "set LIST_NAME=" + folder,
     "steamcmd.exe ^",
     "  +login anonymous ^",
     "  +force_install_dir " + "\"./%LIST_NAME%/.\" ^"]
  }

  /** The lines of `generateBatScript(list)`. */
  function BatLines(list: ModList): (r: seq<string>)
    ensures |r| == |list.mods| + 6
  {
    BatHeader(SanitizeListName(list.name)) + ItemLines(list.appid, list.mods, "^") + ["  +quit"]
  }

  /** `generateBatScript(list)`: the lines joined with `\r\n`. */
  function BatScript(list: ModList): string {
    Join(BatLines(list), "\r\n")
  }

  /** No line break in the game id or in any entry id. */
  predicate OneLineFields(list: ModList) {
    Excludes(list.appid, '\n') && forall k :: 0 <= k < |list.mods| ==> Excludes(list.mods[k].id, '\n')
  }

  lemma ShHeaderOneLine(folder: string)
    requires Excludes(folder, '\n')
    ensures forall i :: 0 <= i < 5 ==> Excludes(ShHeader(folder)[i], '\n')
  {
    ExcludesConcat("LIST_NAME=\"", folder, '\n');
    ExcludesConcat("LIST_NAME=\"" + folder, "\"", '\n');
    ExcludesConcat("  +force_install_dir ", "\"$HOME/steamcmd/mods/$LIST_NAME\" \\", '\n');
  }

  lemma BatHeaderOneLine(folder: string)
    requires Excludes(folder, '\n')
    ensures forall i :: 0 <= i < 5 ==> Excludes(BatHeader(folder)[i], '\n')
  {
    ExcludesConcat("set LIST_NAME=", folder, '\n');
    ExcludesConcat("  +force_install_dir ", "\"./%LIST_NAME%/.\" ^", '\n');
  }

  /** Every entry line is free of line breaks when the ids are. */
  lemma ItemLinesOneLine(list: ModList, cont: string)
    requires OneLineFields(list) && Excludes(cont, '\n')
    ensures forall i :: 0 <= i < |list.mods| ==> Excludes(ItemLines(list.appid, list.mods, cont)[i], '\n')
  {
    forall i | 0 <= i < |list.mods|
      ensures Excludes(ItemLines(list.appid, list.mods, cont)[i], '\n')
    {
      var m := list.mods[i];
      var a := "  +workshop_download_item " + list.appid;
      ExcludesConcat("  +workshop_download_item ", list.appid, '\n');
      ExcludesConcat(a, " ", '\n');
      ExcludesConcat(a + " ", m.id, '\n');
      ExcludesConcat(a + " " + m.id, " ", '\n');
      ExcludesConcat(a + " " + m.id + " ", cont, '\n');
    }
  }

  /** Every line of a script is free of line breaks when the ids are. */
  lemma LinesOneLine(head: seq<string>, list: ModList, cont: string)
    requires |head| == 5 && forall i :: 0 <= i < 5 ==> Excludes(head[i], '\n')
    requires OneLineFields(list) && Excludes(cont, '\n')
    ensures var lines := head + ItemLines(list.appid, list.mods, cont) + ["  +quit"];
      forall i :: 0 <= i < |lines| ==> Excludes(lines[i], '\n')
  {
    var items := ItemLines(list.appid, list.mods, cont);
    var lines := head + items + ["  +quit"];
    ItemLinesOneLine(list, cont);
    assert Excludes("  +quit", '\n');
    forall i | 0 <= i < |lines| ensures Excludes(lines[i], '\n') {
      if i < 5 {
        assert lines[i] == head[i];
      } else if i < 5 + |items| {
        assert lines[i] == items[i - 5];
      } else {
        assert lines[i] == "  +quit";
      }
    }
  }

  /** Splitting the shell script on line breaks gives its lines back: the
      header, one line per entry in list order, and `+quit`. */
  lemma ShScriptLines(list: ModList)
    requires OneLineFields(list)
    ensures Split(ShScript(list), '\n') == ShLines(list)
    ensures forall k :: 0 <= k < |list.mods| ==> ShLines(list)[5 + k] == ItemLine(list.appid, list.mods[k], "\\")
  {
    var folder := SanitizeListName(list.name);
    SanitizedChars(list.name);
    ShHeaderOneLine(folder);
    LinesOneLine(ShHeader(folder), list, "\\");
    SplitJoin(ShLines(list), '\n');
  }

  /** The lines with a carriage return after every line but the last. */
  function WithCr(lines: seq<string>): (r: seq<string>)
    ensures |r| == |lines|
  {
    if |lines| <= 1 then lines else [lines[0] + "\r"] + WithCr(lines[1..])
  }

  /** Joining with `\r\n` is joining with `\n` once every line but the last
      carries its carriage return. */
  lemma {:induction false} JoinCrLf(lines: seq<string>)
    ensures Join(lines, "\r\n") == Join(WithCr(lines), "\n")
  {
    if |lines| > 1 {
      JoinCrLf(lines[1..]);
      var rest := WithCr(lines[1..]);
      assert WithCr(lines)[1..] == rest;
      if |lines| == 2 {
        assert |rest| == 1;
      }
      assert lines[0] + "\r\n" + Join(lines[1..], "\r\n") == (lines[0] + "\r") + "\n" + Join(rest, "\n");
    }
  }

  lemma {:induction false} WithCrOneLine(lines: seq<string>)
    requires forall i :: 0 <= i < |lines| ==> Excludes(lines[i], '\n')
    ensures forall i :: 0 <= i < |lines| ==> Excludes(WithCr(lines)[i], '\n')
  {
    if |lines| > 1 {
      WithCrOneLine(lines[1..]);
      ExcludesConcat(lines[0], "\r", '\n');
      forall i | 0 <= i < |lines| ensures Excludes(WithCr(lines)[i], '\n') {
        if i > 0 {
          assert WithCr(lines)[i] == WithCr(lines[1..])[i - 1];
        }
      }
    }
  }

  /** Splitting the batch script on line feeds gives its lines back, each
      but the last with its carriage return. */
  lemma BatScriptLines(list: ModList)
    requires OneLineFields(list)
    ensures Split(BatScript(list), '\n') == WithCr(BatLines(list))
    ensures forall k :: 0 <= k < |list.mods| ==> BatLines(list)[5 + k] == ItemLine(list.appid, list.mods[k], "^")
  {
    var folder := SanitizeListName(list.name);
    SanitizedChars(list.name);
    BatHeaderOneLine(folder);
    LinesOneLine(BatHeader(folder), list, "^");
    WithCrOneLine(BatLines(list));
    JoinCrLf(BatLines(list));
    SplitJoin(WithCr(BatLines(list)), '\n');
  }

  // ---------------------------------------------------------------------
  // The id filter of importListFromFile

  /** `/^\d+$/.test(id)`. */
  predicate IsNumericId(id: string) {
    |id| > 0 && AllDigits(id)
  }

  /** `{ id: String(mod.id || '').trim(), name: String(mod.name || '').trim() }`. */
  function Trimmed(m: ListMod): ListMod {
    ListMod(Trim(m.id), Trim(m.name))
  }

  /** The entries of an imported list, trimmed, with every entry whose id is
      not a run of digits dropped. */
  function ImportedMods(raw: seq<ListMod>): (r: seq<ListMod>)
    ensures |r| <= |raw|
  {
    if |raw| == 0 then []
    else
      var m := Trimmed(raw[0]);
      (if IsNumericId(m.id) then [m] else []) + ImportedMods(raw[1..])
  }

  /** Every input entry, trimmed. */
  function TrimmedAll(raw: seq<ListMod>): (r: seq<ListMod>)
    ensures |r| == |raw|
  {
    if |raw| == 0 then [] else [Trimmed(raw[0])] + TrimmedAll(raw[1..])
  }

  /** Entry `k` of the trimmed list is input entry `k`, trimmed. */
  lemma {:induction false} TrimmedAllAt(raw: seq<ListMod>, k: nat)
    requires k < |raw|
    ensures TrimmedAll(raw)[k] == Trimmed(raw[k])
  {
    if k > 0 {
      TrimmedAllAt(raw[1..], k - 1);
      assert raw[1..][k - 1] == raw[k];
    }
  }

  /** Every kept entry has a numeric id and is a trimmed input entry. */
  lemma {:induction false} ImportedModsKept(raw: seq<ListMod>)
    ensures forall m :: m in ImportedMods(raw) ==> IsNumericId(m.id) && m in TrimmedAll(raw)
  {
    if |raw| > 0 {
      ImportedModsKept(raw[1..]);
      var m := Trimmed(raw[0]);
      var rest := ImportedMods(raw[1..]);
      var all := TrimmedAll(raw[1..]);
      assert ImportedMods(raw) == (if IsNumericId(m.id) then [m] else []) + rest;
      assert TrimmedAll(raw) == [m] + all;
      forall x | x in ImportedMods(raw) ensures IsNumericId(x.id) && x in TrimmedAll(raw) {
        if x in rest {
          assert x in all;
        }
      }
    }
  }

  /** Every input entry whose trimmed id is numeric is kept. */
  lemma {:induction false} ImportedModsComplete(raw: seq<ListMod>)
    ensures forall k :: 0 <= k < |raw| && IsNumericId(Trimmed(raw[k]).id) ==> Trimmed(raw[k]) in ImportedMods(raw)
  {
    if |raw| > 0 {
      ImportedModsComplete(raw[1..]);
      var m := Trimmed(raw[0]);
      var rest := ImportedMods(raw[1..]);
      assert ImportedMods(raw) == (if IsNumericId(m.id) then [m] else []) + rest;
      forall k | 0 <= k < |raw| && IsNumericId(Trimmed(raw[k]).id) ensures Trimmed(raw[k]) in ImportedMods(raw) {
        if k > 0 {
          assert raw[1..][k - 1] == raw[k];
          assert Trimmed(raw[k]) in rest;
        }
      }
    }
  }
}
