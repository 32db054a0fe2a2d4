/** The export-name policy's texts written out: what is cut off, what a numbered name reads, and which
    names are devices, without the functions that compute them. */
module ExportSpelling {
  import opened Basics
  import opened ExportNames
  import opened Protocol
  import Decimals
  import Json

  // ---------------------------------------------------------------- cutting

  /** `r` is `s` without the characters among `cs` that it ends with. */
  predicate IsTrimmed(s: string, cs: string, r: string) {
    r <= s && (forall i :: |r| <= i < |s| ==> s[i] in cs) && (r == "" || r[|r| - 1] !in cs)
  }

  /** `r` is the longest prefix of whole characters that takes at most `max` bytes. */
  predicate IsLongestFit(s: string, max: nat, r: string) {
    r <= s && ByteLen(r) <= max && (r != s ==> ByteLen(s[..|r| + 1]) > max)
  }

  /** `r` is what comes before the first dot. */
  predicate IsBeforeDot(s: string, r: string) {
    r <= s && (forall i :: 0 <= i < |r| ==> r[i] != '.') && (|r| < |s| ==> s[|r|] == '.')
  }

  lemma {:induction false} TrimEndTrims(s: string)
    ensures IsTrimmed(s, ". ", TrimEnd(s))
    decreases |s|
  {
    if s != "" && s[|s| - 1] in ". " {
      TrimEndTrims(s[..|s| - 1]);
    }
  }

  lemma {:induction false} TrimSpacesTrims(s: string)
    ensures IsTrimmed(s, " ", TrimSpaces(s))
    decreases |s|
  {
    if s != "" && s[|s| - 1] in " " {
      TrimSpacesTrims(s[..|s| - 1]);
    }
  }

  lemma {:induction false} FirstPartIsBeforeDot(s: string)
    ensures IsBeforeDot(s, FirstPart(s))
    decreases |s|
  {
    if s != "" && s[0] != '.' {
      FirstPartIsBeforeDot(s[1..]);
      assert FirstPart(s) == [s[0]] + FirstPart(s[1..]);
    }
  }

  lemma {:induction false} TruncateFits(s: string, max: nat)
    ensures IsLongestFit(s, max, Truncate(s, max))
    decreases |s|
  {
    if s != "" {
      if CharLen(s[0]) > max {
        assert s[..1] == [s[0]] && [s[0]][1..] == "";
      } else {
        var rest := Truncate(s[1..], max - CharLen(s[0]));
        TruncateFits(s[1..], max - CharLen(s[0]));
        assert Truncate(s, max) == [s[0]] + rest;
        if rest != s[1..] {
          assert s[..|rest| + 2][1..] == s[1..][..|rest| + 1];
        } else {
          assert [s[0]] + s[1..] == s;
        }
      }
    }
  }

  /** The bytes counted for a character are those of its UTF-8 form. */
  lemma CharLenIsUtf8(c: char)
    ensures Json.Utf8Of(c as int).Some? && |Json.Utf8Of(c as int).value| == CharLen(c)
  {
  }

  // ---------------------------------------------------------------- numbers and devices

  lemma {:induction false} NumberIsDecimal(n: nat)
    ensures |NumberText(n)| == |Decimals.Decimal(n)|
    ensures forall i :: 0 <= i < |NumberText(n)| ==> NumberText(n)[i] as int == Decimals.Decimal(n)[i]
    decreases n
  {
    if n >= 10 {
      NumberIsDecimal(n / 10);
    }
  }

  const DEVICES := [
    "con", "prn", "aux", "nul", "com1", "com2", "com3", "com4", "com5", "com6", "com7", "com8", "com9",
    "com\U{B9}", "com\U{B2}", "com\U{B3}", "lpt1", "lpt2", "lpt3", "lpt4", "lpt5", "lpt6", "lpt7", "lpt8", "lpt9",
    "lpt\U{B9}", "lpt\U{B2}", "lpt\U{B3}"]

  lemma DevicesAreReserved(i: nat)
    requires i < |DEVICES|
    ensures IsReserved(DEVICES[i])
  {
  }

  lemma ThreeLetters(s: string, t: string)
    requires |s| == |t| == 3 && s[0] == t[0] && s[1] == t[1] && s[2] == t[2]
    ensures s == t
  {
  }

  lemma FourLetters(s: string, t: string)
    requires |s| == |t| == 4 && s[0] == t[0] && s[1] == t[1] && s[2] == t[2] && s[3] == t[3]
    ensures s == t
  {
  }

  lemma ReservedIsDevice(s: string) returns (i: nat)
    requires IsReserved(s)
    ensures i < |DEVICES| && DEVICES[i] == s
  {
    if |s| == 3 {
      i := if s[0] == 'c' then 0 else if s[0] == 'p' then 1 else if s[0] == 'a' then 2 else 3;
      ThreeLetters(s, DEVICES[i]);
    } else {
      var digit := if '1' <= s[3] <= '9' then s[3] as int - '1' as int
                   else if s[3] == '\U{B9}' then 9 else if s[3] == '\U{B2}' then 10 else 11;
      i := (if s[0] == 'c' then 4 else 16) + digit;
      FourLetters(s, DEVICES[i]);
    }
  }

  /** The reserved names are the listed ones. */
  lemma ReservedAreTheDevices(s: string)
    ensures IsReserved(s) <==> s in DEVICES
  {
    if IsReserved(s) {
      var i := ReservedIsDevice(s);
    }
    if s in DEVICES {
      var i :| 0 <= i < |DEVICES| && DEVICES[i] == s;
      DevicesAreReserved(i);
    }
  }

  // ---------------------------------------------------------------- sanitized names

  /** One of the nine characters Windows forbids, or a control character. */
  predicate IsReplaced(c: char) { c in "/\\:*?\"<>|" || c as int < 0x20 || 0x7F <= c as int <= 0x9F }

  ghost predicate IsSanitized(lower: char -> string, name: string, index: nat, r: string) {
    exists replaced, clean, part, stem, whole, cut ::
      IsSanitizedBy(lower, name, index, r, replaced, clean, part, stem, whole, cut)
  }

  /** Every such character an underscore; no dots or spaces at the end; a number in place of nothing;
      an underscore before a device's name; and at most 255 bytes, again without dots or spaces at the end. */
  ghost predicate IsSanitizedBy(
    lower: char -> string, name: string, index: nat, r: string,
    replaced: string, clean: string, part: string, stem: string, whole: string, cut: string)
  {
    && |replaced| == |name| && (forall i :: 0 <= i < |name| ==> replaced[i] == if IsReplaced(name[i]) then '_' else name[i])
    && IsTrimmed(replaced, ". ", clean)
    && IsBeforeDot(clean, part) && IsTrimmed(part, " ", stem)
    && whole == (if Lowered(lower, stem) in DEVICES then "_" + clean else clean)
    && IsLongestFit(whole, 255, cut)
    && if clean == "" then r == "file-" + NumberText(index + 1) else IsTrimmed(cut, ". ", r)
  }

  lemma ForbiddenAreReplaced(c: char)
    ensures IsReplaced(c) <==> IsForbidden(c) || IsControl(c)
  {
  }

  lemma SanitizedIsSpelled(lower: char -> string, name: string, index: nat)
    ensures IsSanitized(lower, name, index, Sanitized(lower, name, index))
  {
    var replaced := Replaced(name);
    var clean := TrimEnd(replaced);
    var part := FirstPart(clean);
    var stem := TrimSpaces(part);
    var whole := if Lowered(lower, stem) in DEVICES then "_" + clean else clean;
    var cut := Truncate(whole, 255);
    forall c: char ensures IsReplaced(c) <==> IsForbidden(c) || IsControl(c) {
      ForbiddenAreReplaced(c);
    }
    TrimEndTrims(replaced);
    FirstPartIsBeforeDot(clean);
    TrimSpacesTrims(part);
    ReservedAreTheDevices(Lowered(lower, stem));
    TruncateFits(whole, 255);
    TrimEndTrims(cut);
    assert IsSanitizedBy(lower, name, index, Sanitized(lower, name, index), replaced, clean, part, stem, whole, cut);
  }

  // ---------------------------------------------------------------- numbered names

  /** `extension` is the name's end from its last dot on, or empty where no dot comes after the first
      character. */
  predicate IsExtension(name: string, extension: string) {
    if forall i :: 1 <= i < |name| ==> name[i] != '.' then extension == ""
    else extension != "" && |extension| < |name| && name[|name| - |extension|..] == extension
         && extension[0] == '.' && forall i :: 1 <= i < |extension| ==> extension[i] != '.'
  }

  lemma {:induction false} LastDotIsLast(s: string)
    ensures LastDot(s).None? ==> NoDot(s)
    ensures LastDot(s).Some? ==> forall i :: LastDot(s).value < i < |s| ==> s[i] != '.'
    decreases |s|
  {
    if s != "" && s[|s| - 1] != '.' {
      LastDotIsLast(s[..|s| - 1]);
    }
  }

  lemma ExtensionIsSpelled(name: string)
    ensures IsExtension(name, ExtensionOf(name))
  {
    LastDotIsLast(name);
    if LastDot(name).Some? && LastDot(name).value > 0 {
      var dot := LastDot(name).value;
      assert name[dot] == '.';
      assert forall i :: 1 <= i < |name| - dot ==> ExtensionOf(name)[i] == name[dot + i];
    }
  }

  /** `r` is the name numbered `n`: the number in parentheses before the extension, or after the whole
      name where the extension leaves no room, with as much of what comes before it as 255 bytes allow. */
  ghost predicate IsNumbered(name: string, n: nat, r: string) {
    exists stem, extension, front :: IsNumberedBy(name, n, r, stem, extension, front)
  }

  ghost predicate IsNumberedBy(name: string, n: nat, r: string, stem: string, extension: string, front: string) {
    var number := " (" + NumberText(n) + ")";
    && name == stem + extension && IsExtension(name, extension) && |number| <= 255
    && if |number| + ByteLen(extension) < 255
       then IsLongestFit(stem, 255 - |number| - ByteLen(extension), front) && r == front + number + extension
       else IsLongestFit(name, 255 - |number|, front) && r == front + number
  }

  lemma StemAndExtension(name: string, extension: string)
    requires extension == ExtensionOf(name)
    ensures |extension| <= |name| && name == name[..|name| - |extension|] + extension && IsExtension(name, extension)
  {
    ExtensionIsSpelled(name);
    assert extension == name[|name| - |extension|..];
  }

  lemma CandidateKeeps(name: string, n: nat, extension: string, front: string)
    requires |Suffix(n)| <= 255 && extension == ExtensionOf(name) && KeepsExtension(name, n)
    requires front == Truncate(name[..|name| - |extension|], MAX_NAME_BYTES - |Suffix(n)| - ByteLen(extension))
    ensures Candidate(name, n) == front + Suffix(n) + extension
  {
  }

  lemma CandidateDrops(name: string, n: nat, front: string)
    requires |Suffix(n)| <= 255 && !KeepsExtension(name, n) && front == Truncate(name, MAX_NAME_BYTES - |Suffix(n)|)
    ensures Candidate(name, n) == front + Suffix(n)
  {
  }

  lemma CandidateIsSpelled(name: string, n: nat)
    requires |Suffix(n)| <= 255
    ensures IsNumbered(name, n, Candidate(name, n))
  {
    var extension, number, r := ExtensionOf(name), Suffix(n), Candidate(name, n);
    var stem := name[..|name| - |extension|];
    StemAndExtension(name, extension);
    if KeepsExtension(name, n) {
      var room := MAX_NAME_BYTES - |number| - ByteLen(extension);
      var front := Truncate(stem, room);
      TruncateFits(stem, room);
      CandidateKeeps(name, n, extension, front);
      assert IsNumberedBy(name, n, r, stem, extension, front);
    } else {
      var room := MAX_NAME_BYTES - |number|;
      var front := Truncate(name, room);
      TruncateFits(name, room);
      CandidateDrops(name, n, front);
      assert IsNumberedBy(name, n, r, stem, extension, front);
    }
  }

  /** Where it all fits, the number goes between the stem and the extension and nothing is cut. */
  lemma ShortNameIsNumbered(stem: string, extension: string, n: nat)
    requires IsExtension(stem + extension, extension) && |stem| > 0
    requires ByteLen(stem) + |Suffix(n)| + ByteLen(extension) <= 255
    ensures Candidate(stem + extension, n) == stem + (" (" + NumberText(n) + ")") + extension
  {
    var name := stem + extension;
    ExtensionIsSpelled(name);
    ExtensionIsUnique(name, extension, ExtensionOf(name));
    assert name[..|name| - |extension|] == stem;
    TruncateKeepsShort(stem, 255 - |Suffix(n)| - ByteLen(extension));
  }

  lemma ExtensionIsNotShorter(name: string, e: string, e': string)
    requires IsExtension(name, e) && IsExtension(name, e')
    ensures |e'| <= |e|
  {
    if e != "" {
      assert name[|name| - |e|] == e[0] == '.';
      assert forall i :: 1 <= i < |e'| ==> name[|name| - |e'| + i] == e'[i];
    }
  }

  lemma ExtensionIsUnique(name: string, e: string, e': string)
    requires IsExtension(name, e) && IsExtension(name, e')
    ensures e == e'
  {
    ExtensionIsNotShorter(name, e, e');
    ExtensionIsNotShorter(name, e', e);
  }
}
