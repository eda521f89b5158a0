/** Attribute names: camel case hidden from the HTML parser as kebab case, and brought back. */
module AttrNames {
  import opened Options
  import opened Text

  const PREFIX := "sc-camel-"

  function Lower(c: char): (l: char)
    ensures IsUpper(c) ==> IsLower(l)
  {
    if IsUpper(c) then (c as int + 32) as char else c
  }

  function Upper(c: char): (u: char)
    ensures IsLower(c) ==> IsUpper(u) && Lower(u) == c
    ensures !IsLower(c) ==> u == c
  {
    if IsLower(c) then (c as int - 32) as char else c
  }

  /** Every capital becomes a dash and the small letter. */
  function CamelToKebab(s: string): string {
    if s == "" then ""
    else (if IsUpper(s[0]) then ['-', Lower(s[0])] else [s[0]]) + CamelToKebab(s[1..])
  }

  /** Every dash before a small letter is dropped and the letter made a capital. */
  function KebabToCamel(s: string): string {
    if s == "" then ""
    else if s[0] == '-' && |s| > 1 && IsLower(s[1]) then [Upper(s[1])] + KebabToCamel(s[2..])
    else [s[0]] + KebabToCamel(s[1..])
  }

  /** A dash with a lower-case letter behind it: what the decoder takes for an encoded capital. */
  ghost predicate HasDashLower(s: string) {
    exists i :: 0 <= i < |s| - 1 && s[i] == '-' && IsLower(s[i + 1])
  }

  predicate NoUpper(s: string) { forall i :: 0 <= i < |s| ==> !IsUpper(s[i]) }

  /** The encoded form survives an HTML parser that lower-cases attribute names. */
  lemma {:induction false} KebabHasNoCapitals(s: string)
    ensures NoUpper(CamelToKebab(s))
  {
    if s != "" {
      KebabHasNoCapitals(s[1..]);
    }
  }

  lemma {:induction false} HasDashLowerCons(s: string)
    requires s != ""
    ensures HasDashLower(s) <==> (|s| > 1 && s[0] == '-' && IsLower(s[1])) || HasDashLower(s[1..])
  {
    if HasDashLower(s) {
      var i :| 0 <= i < |s| - 1 && s[i] == '-' && IsLower(s[i + 1]);
      if i > 0 {
        assert s[1..][i - 1] == '-' && s[1..][i] == s[i + 1];
      }
    }
    if HasDashLower(s[1..]) {
      var i :| 0 <= i < |s[1..]| - 1 && s[1..][i] == '-' && IsLower(s[1..][i + 1]);
      assert s[i + 1] == '-' && s[i + 2] == s[1..][i + 1];
    }
  }

  lemma {:induction false} DecodeLength(s: string)
    ensures |KebabToCamel(s)| <= |s|
    ensures HasDashLower(s) ==> |KebabToCamel(s)| < |s|
    decreases |s|
  {
    if s != "" {
      HasDashLowerCons(s);
      DecodeLength(s[1..]);
      if |s| > 1 {
        DecodeLength(s[2..]);
      }
    }
  }

  /** Decoding undoes encoding exactly for the names with no dash before a lower-case letter. */
  lemma {:induction false} NameRoundTrip(s: string)
    ensures KebabToCamel(CamelToKebab(s)) == s <==> !HasDashLower(s)
    decreases |s|
  {
    if s != "" {
      var k := CamelToKebab(s[1..]);
      HasDashLowerCons(s);
      NameRoundTrip(s[1..]);
      if IsUpper(s[0]) {
        assert CamelToKebab(s) == ['-', Lower(s[0])] + k;
        assert (['-', Lower(s[0])] + k)[2..] == k;
        assert s == [s[0]] + s[1..];
        assert KebabToCamel(CamelToKebab(s)) == [s[0]] + KebabToCamel(k);
      } else {
        assert CamelToKebab(s) == [s[0]] + k;
        assert ([s[0]] + k)[1..] == k;
        assert s == [s[0]] + s[1..];
        if s[0] == '-' && k != "" && IsLower(k[0]) {
          KebabFront(s[1..]);
          DashLost(s, k);
        } else {
          assert KebabToCamel(CamelToKebab(s)) == [s[0]] + KebabToCamel(k);
        }
      }
    }
  }

  lemma {:induction false} KebabFront(s: string)
    requires CamelToKebab(s) != "" && IsLower(CamelToKebab(s)[0])
    ensures s != "" && IsLower(s[0]) && CamelToKebab(s) == [s[0]] + CamelToKebab(s[1..])
  {}

  lemma {:induction false} DashLost(s: string, k: string)
    requires s != "" && s[0] == '-' && k != "" && IsLower(k[0]) && CamelToKebab(s) == ['-'] + k
    ensures KebabToCamel(CamelToKebab(s)) != s
  {
    var e := ['-'] + k;
    assert KebabToCamel(e)[0] == Upper(k[0]);
  }

  /** CAMEL_ATTR_RE: small letters, a capital, then letters and digits. */
  predicate IsCamelName(s: string) {
    exists n :: 0 < n < |s| && IsUpper(s[n])
                && (forall i :: 0 <= i < n ==> IsLower(s[i]))
                && (forall i :: n < i < |s| ==> IsLower(s[i]) || IsUpper(s[i]) || IsDigit(s[i]))
  }

  /** encodeCase on one attribute name */
  function Encode(name: string): string { PREFIX + CamelToKebab(name) }

  datatype Kind = Dom | Component | XImport

  /** EVENT_MAP; every name in it is in lower case. */
  function EventProp(name: string): (r: Option<string>)
    ensures r.Some? ==> NoUpper(name)
  {
    if name == "onclick" then Some("onClick")
    else if name == "onchange" then Some("onChange")
    else if name == "oninput" then Some("onInput")
    else if name == "onsubmit" then Some("onSubmit")
    else if name == "onkeydown" then Some("onKeyDown")
    else if name == "onkeyup" then Some("onKeyUp")
    else if name == "onkeypress" then Some("onKeyPress")
    else if name == "onmousedown" then Some("onMouseDown")
    else if name == "onmouseup" then Some("onMouseUp")
    else if name == "onmouseenter" then Some("onMouseEnter")
    else if name == "onmouseleave" then Some("onMouseLeave")
    else if name == "onfocus" then Some("onFocus")
    else if name == "onblur" then Some("onBlur")
    else if name == "ondoubleclick" then Some("onDoubleClick")
    else if name == "oncontextmenu" then Some("onContextMenu")
    else None
  }

  /** The attribute name as the compiler sees it, its camel encoding undone. */
  function Decoded(name: string): string {
    if PREFIX <= name then KebabToCamel(name[|PREFIX|..]) else name
  }

  /** The key collectProps files an ordinary prop under; None where it throws (a bare `on`). */
  function PropKey(kind: Kind, key: string): Option<string> {
    if !kind.Dom? then
      if '-' in key && !(kind.XImport? && ("aria-" <= key || "data-" <= key)) then Some(KebabToCamel(key))
      else Some(key)
    else if key == "class" then Some("className")
    else if key == "for" then Some("htmlFor")
    else if "on" <= key then
      if EventProp(key).Some? then EventProp(key)
      else if |key| > 2 then Some("on" + [Upper(key[2])] + key[3..])
      else None
    else Some(key)
  }

  lemma {:induction false} CamelNameRoundTrip(name: string)
    requires IsCamelName(name)
    ensures '-' !in name && KebabToCamel(CamelToKebab(name)) == name
  {
    NameRoundTrip(name);
  }

  lemma {:induction false} DecodedEncoded(name: string)
    requires IsCamelName(name)
    ensures Decoded(Encode(name)) == name
  {
    CamelNameRoundTrip(name);
    assert Encode(name)[|PREFIX|..] == CamelToKebab(name);
  }

  lemma {:induction false} OnName(name: string)
    requires IsCamelName(name) && "on" <= name
    ensures |name| > 2 && PropKey(Dom, name) == Some("on" + [Upper(name[2])] + name[3..])
    ensures "on" + [Upper(name[2])] + name[3..] == name <==> !IsLower(name[2])
  {
    hide EventProp;
    var n :| 0 < n < |name| && IsUpper(name[n]);
    assert name[0] == "on"[0] && name[1] == "on"[1];
    assert !NoUpper(name);
    var key := "on" + [Upper(name[2])] + name[3..];
    assert key[2] == Upper(name[2]);
    assert name == "on" + [name[2]] + name[3..];
  }

  lemma {:induction false} NotInLowerCase(name: string)
    requires IsCamelName(name)
    ensures !NoUpper(name) && name != "class" && name != "for"
  {
    var n :| 0 < n < |name| && IsUpper(name[n]);
    assert NoUpper("class") && NoUpper("for");
  }

  /**
   * The prop arrives under the name it was written with; on a plain element that fails exactly for
   * names that start with "on" and a third letter in lower case.
   */
  lemma {:induction false} PropKeyOfEncoded(kind: Kind, name: string)
    requires IsCamelName(name)
    ensures PropKey(kind, Decoded(Encode(name))) == Some(name)
            <==> !(kind.Dom? && "on" <= name && IsLower(name[2]))
  {
    hide EventProp, Decoded, Encode;
    CamelNameRoundTrip(name);
    DecodedEncoded(name);
    NotInLowerCase(name);
    if "on" <= name {
      OnName(name);
    }
  }

  /**
   * Two names end up on one prop exactly when, on a plain element, both start with "on" and agree
   * from the third letter on, but for the case of that letter.
   */
  lemma {:induction false} NamesStayApart(kind: Kind, a: string, b: string)
    requires IsCamelName(a) && IsCamelName(b) && a != b
    ensures PropKey(kind, Decoded(Encode(a))) == PropKey(kind, Decoded(Encode(b)))
            <==> kind.Dom? && "on" <= a && "on" <= b && Upper(a[2]) == Upper(b[2]) && a[3..] == b[3..]
  {
    hide EventProp, Decoded, Encode;
    DecodedEncoded(a);
    DecodedEncoded(b);
    PropKeyOfEncoded(kind, a);
    PropKeyOfEncoded(kind, b);
    if kind.Dom? && "on" <= a {
      OnName(a);
      KeyParts(a);
    }
    if kind.Dom? && "on" <= b {
      OnName(b);
      KeyParts(b);
    }
  }

  lemma {:induction false} KeyParts(name: string)
    requires |name| > 2
    ensures var key := "on" + [Upper(name[2])] + name[3..];
            "on" <= key && key[2] == Upper(name[2]) && key[3..] == name[3..]
  {}

  /** On a plain element these two names do land on the same prop. */
  lemma {:induction false} OnNamesCollide()
    ensures IsCamelName("onlyOnce") && IsCamelName("onLyOnce")
    ensures PropKey(Dom, Decoded(Encode("onlyOnce"))) == PropKey(Dom, Decoded(Encode("onLyOnce")))
  {
    hide EventProp, Decoded, Encode;
    assert IsUpper("onlyOnce"[4]) && IsUpper("onLyOnce"[2]);
    DecodedEncoded("onlyOnce");
    DecodedEncoded("onLyOnce");
    OnName("onlyOnce");
    OnName("onLyOnce");
    assert "onlyOnce"[3..] == "yOnce" == "onLyOnce"[3..];
  }

  // ---------------------------------------------------------------- keys as a template's author writes them

  /** The same letters, whatever their case. */
  predicate SameLetters(a: string, b: string) {
    |a| == |b| && forall i :: 0 <= i < |a| ==> Lower(a[i]) == Lower(b[i])
  }

  /** What the map gives for a name is that name with capitals put in, the first right behind "on". */
  predicate Capitalised(name: string, prop: string) {
    && |prop| == |name| > 2 && prop[0] == 'o' && prop[1] == 'n' && IsUpper(prop[2])
    && SameLetters(prop, name)
  }

  lemma {:induction false} MouseEvents(name: string)
    requires EventProp(name).Some? && "onm" <= name
    ensures Capitalised(name, EventProp(name).value)
  {}

  lemma {:induction false} KeyEvents(name: string)
    requires EventProp(name).Some? && "onk" <= name
    ensures Capitalised(name, EventProp(name).value)
  {}

  lemma {:induction false} ClickEvents(name: string)
    requires EventProp(name).Some? && "onc" <= name
    ensures Capitalised(name, EventProp(name).value)
  {}

  lemma {:induction false} OtherEvents(name: string)
    requires EventProp(name).Some? && !("onc" <= name) && !("onk" <= name) && !("onm" <= name)
    ensures Capitalised(name, EventProp(name).value)
  {}

  lemma {:induction false} EventSameLetters(name: string)
    requires EventProp(name).Some?
    ensures Capitalised(name, EventProp(name).value)
  {
    hide EventProp, Capitalised;
    if "onm" <= name {
      MouseEvents(name);
    } else if "onk" <= name {
      KeyEvents(name);
    } else if "onc" <= name {
      ClickEvents(name);
    } else {
      OtherEvents(name);
    }
  }

  /** A handler's prop on a plain element is the attribute but for case, and goes on after "on" with a capital. */
  lemma {:induction false} HandlerKey(key: string)
    requires "on" <= key && |key| > 2
    ensures PropKey(Dom, key).Some? && SameLetters(PropKey(Dom, key).value, key)
    ensures "on" <= PropKey(Dom, key).value && (IsLower(key[2]) ==> IsUpper(PropKey(Dom, key).value[2]))
  {
    hide EventProp;
    assert key[0] == "on"[0] && key[1] == "on"[1];
    if EventProp(key).Some? {
      EventSameLetters(key);
    } else {
      assert ("on" + [Upper(key[2])] + key[3..])[2] == Upper(key[2]);
      assert forall i :: 3 <= i < |key| ==> ("on" + [Upper(key[2])] + key[3..])[i] == key[i];
    }
  }

  /** A component's prop may be written in kebab case by hand: it arrives in camel case. */
  lemma {:induction false} ComponentKebab(name: string)
    requires !HasDashLower(name)
    ensures PropKey(Component, CamelToKebab(name)) == Some(name)
  {
    NameRoundTrip(name);
    if '-' !in CamelToKebab(name) {
      NoDashNoCapital(name);
    }
  }

  lemma {:induction false} NoDashNoCapital(s: string)
    requires '-' !in CamelToKebab(s)
    ensures CamelToKebab(s) == s
  {
    if s != "" {
      assert !IsUpper(s[0]);
      assert CamelToKebab(s) == [s[0]] + CamelToKebab(s[1..]);
      NoDashNoCapital(s[1..]);
    }
  }
}
