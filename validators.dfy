/** The client's input checks: `validateEmail`, `validatePhone` and the payment PIN
    format, each a regular expression in the source. */
module Validators {
  import Seqs
  import Text

  predicate IsAt(c: char) { c == '@' }

  /** A character allowed in each of the three runs of an address: `[^\s@]`. */
  predicate IsEmailPartChar(c: char) { !Text.IsSpace(c) && c != '@' }

  predicate AllEmailPartChars(s: string) {
    forall k | 0 <= k < |s| :: IsEmailPartChar(s[k])
  }

  /** `s` reads as A '@' B '.' C with the '@' at `i` and the '.' at `j`, where A, B and C
      are non-empty runs of `[^\s@]`. */
  ghost predicate EmailSplit(s: string, i: int, j: int) {
    && 0 < i && i + 1 < j && j + 1 < |s|
    && s[i] == '@' && s[j] == '.'
    && AllEmailPartChars(s[..i]) && AllEmailPartChars(s[i + 1..j]) && AllEmailPartChars(s[j + 1..])
  }

  /** The language of `/^[^\s@]+@[^\s@]+\.[^\s@]+$/`. */
  ghost predicate MatchesEmailPattern(s: string) {
    exists i, j :: EmailSplit(s, i, j)
  }

  /** `validateEmail`, as a check on positions: exactly one '@', not first; no whitespace
      anywhere; and a '.' with at least one character on each side, after the '@'. */
  predicate ValidateEmail(s: string) {
    var at := Seqs.FirstIndex(s, IsAt);
    && 0 < at
    && (forall k | 0 <= k < |s| :: !Text.IsSpace(s[k]))
    && (forall k | at < k < |s| :: s[k] != '@')
    && (exists j | at + 1 < j < |s| - 1 :: s[j] == '.')
  }

  /** The check accepts exactly the addresses the regular expression accepts. */
  lemma ValidateEmailMatchesPattern(s: string)
    ensures ValidateEmail(s) <==> MatchesEmailPattern(s)
  {
    var at := Seqs.FirstIndex(s, IsAt);
    if ValidateEmail(s) {
      var j :| at + 1 < j < |s| - 1 && s[j] == '.';
      assert AllEmailPartChars(s[..at]) by {
        forall k | 0 <= k < at ensures IsEmailPartChar(s[..at][k]) {
          assert s[..at][k] == s[k] && !IsAt(s[k]);
        }
      }
      var b, c := s[at + 1..j], s[j + 1..];
      assert AllEmailPartChars(b) by {
        forall k | 0 <= k < |b| ensures IsEmailPartChar(b[k]) {
          assert b[k] == s[at + 1 + k];
        }
      }
      assert AllEmailPartChars(c) by {
        forall k | 0 <= k < |c| ensures IsEmailPartChar(c[k]) {
          assert c[k] == s[j + 1 + k];
        }
      }
      assert EmailSplit(s, at, j);
    }
    if MatchesEmailPattern(s) {
      var i, j :| EmailSplit(s, i, j);
      forall k | 0 <= k < i ensures !IsAt(s[k]) && !Text.IsSpace(s[k]) {
        assert s[k] == s[..i][k];
      }
      assert at == i;
      forall k | i < k < |s| ensures s[k] != '@' && !Text.IsSpace(s[k]) {
        if k < j {
          assert s[k] == s[i + 1..j][k - i - 1];
        } else if k > j {
          assert s[k] == s[j + 1..][k - j - 1];
        }
      }
      assert forall k | 0 <= k < |s| :: !Text.IsSpace(s[k]) by {
        forall k | 0 <= k < |s| ensures !Text.IsSpace(s[k]) {
          if k < i {
            assert !Text.IsSpace(s[k]);
          }
        }
      }
    }
  }

  /** The nine digits after the prefix in `[1-9]\d{8}`. */
  predicate IsNationalNumber(t: string) {
    |t| == 9 && '1' <= t[0] <= '9' && forall k | 1 <= k < 9 :: Text.IsAsciiDigit(t[k])
  }

  /** `validatePhone`: after removing all whitespace, `/^(\+254|0)[1-9]\d{8}$/`. */
  predicate ValidatePhone(phone: string) {
    var p := Text.StripSpaces(phone);
    || (Text.HasPrefix(p, "+254") && IsNationalNumber(p[4..]))
    || (Text.HasPrefix(p, "0") && IsNationalNumber(p[1..]))
  }

  /** The two accepted forms: a national number after "0" or after "+254", with any
      whitespace in between. */
  lemma ValidatePhoneForms(phone: string)
    ensures ValidatePhone(phone) <==>
      exists n :: IsNationalNumber(n) &&
        (Text.StripSpaces(phone) == "0" + n || Text.StripSpaces(phone) == "+254" + n)
  {
    var p := Text.StripSpaces(phone);
    if ValidatePhone(phone) {
      if Text.HasPrefix(p, "+254") && IsNationalNumber(p[4..]) {
        assert p == "+254" + p[4..];
      } else {
        assert p == "0" + p[1..];
      }
    }
    if exists n :: IsNationalNumber(n) && (p == "0" + n || p == "+254" + n) {
      var n :| IsNationalNumber(n) && (p == "0" + n || p == "+254" + n);
      if p == "0" + n {
        assert p[..1] == "0" && p[1..] == n;
      } else {
        assert p[..4] == "+254" && p[4..] == n;
      }
    }
  }

  /** Whitespace anywhere in the number does not change the verdict. */
  lemma ValidatePhoneIgnoresSpaces(phone: string)
    ensures ValidatePhone(Text.StripSpaces(phone)) == ValidatePhone(phone)
  {
    Text.StripSpacesIdempotent(phone);
  }

  /** The payment PIN format `/^\d{4,6}$/`. */
  predicate IsPinFormat(pin: string) {
    4 <= |pin| <= 6 && forall k | 0 <= k < |pin| :: Text.IsAsciiDigit(pin[k])
  }
}
