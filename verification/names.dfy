/**
 Archive entry names (utils.py:33-36): the key's display text with every
 character other than a letter, a digit, a space, `_` or `-` removed, then
 the spreadsheet extension.
 */
module Names {
  import opened Cells

  /** Letters and digits, as an ASCII approximation of `str.isalnum`. */
  predicate IsAlnum(c: char) {
    ('a' <= c <= 'z') || ('A' <= c <= 'Z') || ('0' <= c <= '9')
  }

  /** The characters an entry name may keep. */
  predicate IsAllowed(c: char) {
    IsAlnum(c) || c == ' ' || c == '_' || c == '-'
  }

  predicate AllAllowed(s: string) {
    forall i :: 0 <= i < |s| ==> IsAllowed(s[i])
  }

  /** True when `r` is `s` with some characters deleted. */
  predicate IsSubsequence(r: string, s: string)
    decreases |s|
  {
    if |r| == 0 then true
    else if |s| == 0 then false
    else (r[0] == s[0] && IsSubsequence(r[1..], s[1..])) || IsSubsequence(r, s[1..])
  }

  /** `s` with every character that is not allowed removed. */
  function Sanitize(s: string): (r: string)
    ensures AllAllowed(r)
    ensures |r| <= |s|
  {
    if |s| == 0 then []
    else (if IsAllowed(s[0]) then [s[0]] else []) + Sanitize(s[1..])
  }

  const Extension: string := ".xlsx"

  /** The archive entry name for a group key. */
  function EntryName(key: Cell): (name: string)
    ensures |name| >= |Extension|
    ensures name[|name| - |Extension|..] == Extension
    ensures AllAllowed(name[..|name| - |Extension|])
  {
    var stem := Sanitize(Render(key));
    assert (stem + Extension)[..|stem|] == stem;
    stem + Extension
  }

  /** The sanitised name keeps the allowed characters of the key text in their
      original order: it is a subsequence of that text. */
  lemma {:induction false} SanitizeIsSubsequence(s: string)
    ensures IsSubsequence(Sanitize(s), s)
  {
    if |s| > 0 {
      SanitizeIsSubsequence(s[1..]);
      if IsAllowed(s[0]) {
        assert Sanitize(s) == [s[0]] + Sanitize(s[1..]);
        assert Sanitize(s)[1..] == Sanitize(s[1..]);
      } else {
        assert Sanitize(s) == Sanitize(s[1..]);
        if |Sanitize(s)| > 0 {
          assert IsSubsequence(Sanitize(s), s[1..]);
        }
      }
    }
  }

  /** Exactly the allowed characters survive: each allowed character occurs in
      the result as often as in the input, and no other character occurs. */
  lemma {:induction false} SanitizeKeepsExactlyAllowed(s: string)
    ensures forall c :: multiset(Sanitize(s))[c] == if IsAllowed(c) then multiset(s)[c] else 0
  {
    if |s| > 0 {
      SanitizeKeepsExactlyAllowed(s[1..]);
      assert s == [s[0]] + s[1..];
      assert multiset(s) == multiset{s[0]} + multiset(s[1..]);
    }
  }

  /** A text that holds only allowed characters is its own sanitised form, and
      only such a text is. */
  lemma {:induction false} SanitizeFixedPoints(s: string)
    ensures Sanitize(s) == s <==> AllAllowed(s)
  {
    if |s| > 0 {
      SanitizeFixedPoints(s[1..]);
      assert AllAllowed(s) <==> IsAllowed(s[0]) && AllAllowed(s[1..]);
      if !IsAllowed(s[0]) {
        assert |Sanitize(s)| <= |s[1..]| < |s|;
      }
    }
  }

  /** Sanitising twice gives the same result as sanitising once. */
  lemma SanitizeIdempotent(s: string)
    ensures Sanitize(Sanitize(s)) == Sanitize(s)
  {
    SanitizeFixedPoints(Sanitize(s));
  }

  /** Sanitising works character by character, so it distributes over
      concatenation. */
  lemma {:induction false} SanitizeConcat(a: string, b: string)
    ensures Sanitize(a + b) == Sanitize(a) + Sanitize(b)
  {
    if |a| > 0 {
      assert (a + b)[1..] == a[1..] + b;
      SanitizeConcat(a[1..], b);
    } else {
      assert a + b == b;
    }
  }

  /** Two keys share an entry name exactly when their sanitised texts agree. */
  lemma SameNameIffSameSanitizedText(a: Cell, b: Cell)
    ensures EntryName(a) == EntryName(b) <==> Sanitize(Render(a)) == Sanitize(Render(b))
  {
    var x := Sanitize(Render(a));
    var y := Sanitize(Render(b));
    if EntryName(a) == EntryName(b) {
      assert (x + Extension)[..|x|] == x;
      assert (y + Extension)[..|y|] == y;
    }
  }

  /** Integer keys keep their whole text: digits and the minus sign are all
      allowed characters, so the name's stem reads back as the key. */
  lemma IntegerKeyNameIsItsText(i: int)
    ensures EntryName(Integer(i)) == IntToString(i) + Extension
    ensures DecimalValue(EntryName(Integer(i))[..|EntryName(Integer(i))| - |Extension|]) == i
  {
    var s := IntToString(i);
    assert AllAllowed(s) by {
      forall k | 0 <= k < |s| ensures s[k] == '-' || '0' <= s[k] <= '9' {
        if s[0] == '-' && k > 0 {
          assert s[k] == s[1..][k - 1];
        }
      }
    }
    SanitizeFixedPoints(s);
    assert (s + Extension)[..|s|] == s;
    IntToStringValue(i);
  }

  /** A text without allowed characters sanitises to nothing. */
  lemma {:induction false} SanitizeDropsAll(s: string)
    requires forall i :: 0 <= i < |s| ==> !IsAllowed(s[i])
    ensures Sanitize(s) == []
  {
    if |s| > 0 {
      SanitizeDropsAll(s[1..]);
    }
  }

  /** Runs of allowed characters are kept and runs of other characters are
      dropped. */
  lemma {:induction false} SanitizeRuns(a: string, b: string, c: string, d: string, e: string)
    requires AllAllowed(a) && AllAllowed(c) && AllAllowed(e)
    requires forall i :: 0 <= i < |b| ==> !IsAllowed(b[i])
    requires forall i :: 0 <= i < |d| ==> !IsAllowed(d[i])
    ensures Sanitize(a + b + c + d + e) == a + c + e
  {
    SanitizeFixedPoints(a);
    SanitizeFixedPoints(c);
    SanitizeFixedPoints(e);
    SanitizeDropsAll(b);
    SanitizeDropsAll(d);
    SanitizeConcat(a, b);
    assert Sanitize(a + b) == a;
    SanitizeConcat(a + b, c);
    assert Sanitize(a + b + c) == a + c;
    SanitizeConcat(a + b + c, d);
    assert Sanitize(a + b + c + d) == a + c;
    SanitizeConcat(a + b + c + d, e);
  }

  /** `North/East*2023` splits into the runs `North`, `/`, `East`, `*` and `2023`. */
  lemma NorthEastPieces(key: string)
    requires key == "North/East*2023"
    ensures key == key[..5] + key[5..6] + key[6..10] + key[10..11] + key[11..]
    ensures key[..5] == "North" && key[5..6] == "/" && key[6..10] == "East"
    ensures key[10..11] == "*" && key[11..] == "2023"
  {
  }

  /** The key North/East*2023 is stored as NorthEast2023.xlsx: the slash and
      the asterisk are stripped. */
  lemma SlashAndAsteriskStripped(key: string)
    requires key == "North/East*2023"
    ensures EntryName(Text(key)) == "NorthEast2023.xlsx"
  {
    var a, b, c, d, e := "North", "/", "East", "*", "2023";
    assert key == a + b + c + d + e && Render(Text(key)) == key by {
      NorthEastPieces(key);
    }
    assert Sanitize(key) == a + c + e by {
      SanitizeRuns(a, b, c, d, e);
    }
    assert a + c + e + Extension == "NorthEast2023.xlsx";
  }

  /** Distinct keys may collapse to one name: the archive can hold two entries
      with the same name. */
  lemma DistinctKeysMayShareAName()
    ensures Text("A/B") != Text("AB") && EntryName(Text("A/B")) == EntryName(Text("AB"))
  {
    assert Sanitize("A/B") == "AB" by {
      assert "A/B"[1..] == "/B" && "/B"[1..] == "B";
    }
    assert Sanitize("AB") == "AB" by {
      assert "AB"[1..] == "B";
    }
  }
}
