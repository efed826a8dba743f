/** The detail panel helpers of src/components/Detail.jsx: the expanded-section
    list toggle and the name, initials and description shown for the other
    participant. */
module Detail {
  import opened Options
  import opened Strings

  type Section = string

  /** No section is listed twice. */
  predicate NoDuplicates(xs: seq<Section>) {
    forall i, j :: 0 <= i < j < |xs| ==> xs[i] != xs[j]
  }

  /** `xs.filter(t => t !== s)`. */
  function Without(xs: seq<Section>, s: Section): (r: seq<Section>)
    ensures forall t :: t in r <==> t in xs && t != s
    ensures |r| <= |xs|
    ensures s !in xs ==> r == xs
    ensures NoDuplicates(xs) ==> NoDuplicates(r)
  {
    if |xs| == 0 then []
    else
      var rest := Without(xs[1..], s);
      assert xs == [xs[0]] + xs[1..];
      assert NoDuplicates(xs) ==> xs[0] !in xs[1..] && NoDuplicates(xs[1..]) by {
        if NoDuplicates(xs) {
          forall k | 0 <= k < |xs[1..]| ensures xs[1..][k] != xs[0] { assert xs[1..][k] == xs[k + 1]; }
        }
      }
      if xs[0] == s then rest
      else
        var r := [xs[0]] + rest;
        assert NoDuplicates(xs) ==> NoDuplicates(r) by {
          if NoDuplicates(xs) {
            forall i, j | 0 <= i < j < |r| ensures r[i] != r[j] {
              assert r[j] == rest[j - 1] && r[j] in rest;
              if i > 0 { assert r[i] == rest[i - 1]; }
            }
          }
        }
        r
  }

  lemma {:induction false} WithoutAppend(xs: seq<Section>, ys: seq<Section>, s: Section)
    ensures Without(xs + ys, s) == Without(xs, s) + Without(ys, s)
    decreases |xs|
  {
    if |xs| > 0 {
      assert (xs + ys)[1..] == xs[1..] + ys;
      WithoutAppend(xs[1..], ys, s);
    } else {
      assert xs + ys == ys;
    }
  }

  /** `toggleSection(s)`: a listed section is removed, an unlisted one appended. */
  function ToggleSection(xs: seq<Section>, s: Section): (r: seq<Section>)
    ensures s in r <==> s !in xs
    ensures forall t :: t != s ==> (t in r <==> t in xs)
    ensures NoDuplicates(xs) ==> NoDuplicates(r)
    ensures s !in xs ==> r == xs + [s]
  {
    if s in xs then Without(xs, s)
    else
      var r := xs + [s];
      assert NoDuplicates(xs) ==> NoDuplicates(r) by {
        if NoDuplicates(xs) {
          forall i, j | 0 <= i < j < |r| ensures r[i] != r[j] {
            if j == |xs| { assert r[i] == xs[i] && r[i] in xs; }
          }
        }
      }
      r
  }

  /** Toggling a section twice restores which sections are expanded. */
  lemma ToggleTwiceRestoresMembership(xs: seq<Section>, s: Section)
    ensures forall t :: t in ToggleSection(ToggleSection(xs, s), s) <==> t in xs
  {
  }

  /** Opening then closing a section leaves exactly the list it started from. */
  lemma OpenThenCloseIsIdentity(xs: seq<Section>, s: Section)
    requires s !in xs
    ensures ToggleSection(ToggleSection(xs, s), s) == xs
  {
    assert s in xs + [s];
    WithoutAppend(xs, [s], s);
    assert Without([s], s) == [];
  }

  // ================================================================ display info

  /** The fields of the other participant the panel reads. */
  datatype Profile = Profile(
    firstName: Option<string>,
    lastName: Option<string>,
    email: Option<string>,
    username: Option<string>)

  datatype DisplayInfo = DisplayInfo(name: string, initials: string, description: string)

  const LoadingInfo: DisplayInfo := DisplayInfo("Loading...", "...", "Loading user information...")
  const NoUserInfo: DisplayInfo := DisplayInfo("Unknown User", "U", "No user information available.")
  const NoDetails: string := "No additional information available."

  /** `s?.[0] || ""`: the first character, or nothing. */
  function FirstChar(s: string): (r: string)
    ensures |r| <= 1 && (|s| > 0 <==> |r| == 1)
    ensures |r| == 1 ==> r[0] == s[0]
  {
    if |s| == 0 then "" else [s[0]]
  }

  /** The display name: the trimmed "first last", or "Unknown User" when that is empty. */
  function DisplayName(first: string, last: string): (r: string)
    ensures Trim(first + " " + last) != "" ==> r == Trim(first + " " + last)
    ensures Trim(first + " " + last) == "" ==> r == "Unknown User"
    ensures |r| > 0 && !IsWhitespace(r[0]) && !IsWhitespace(r[|r| - 1])
  {
    var full := Trim(first + " " + last);
    if full != "" then full
    else
      assert "Unknown User"[0] == 'U' && "Unknown User"[11] == 'r';
      "Unknown User"
  }

  /** The name falls back to "Unknown User" exactly when both parts are blank. */
  lemma NameFallsBackIffBlank(first: string, last: string)
    ensures Trim(first + " " + last) == "" <==> AllWhitespace(first) && AllWhitespace(last)
  {
    var joined := first + " " + last;
    TrimEmptyIff(joined);
    assert IsWhitespace(' ');
    if AllWhitespace(first) && AllWhitespace(last) {
      forall k | 0 <= k < |joined| ensures IsWhitespace(joined[k]) {
        if k < |first| { assert joined[k] == first[k]; }
        else if k > |first| { assert joined[k] == last[k - |first| - 1]; }
      }
    }
    if AllWhitespace(joined) {
      forall k | 0 <= k < |first| ensures IsWhitespace(first[k]) { assert joined[k] == first[k]; }
      forall k | 0 <= k < |last| ensures IsWhitespace(last[k]) { assert joined[|first| + 1 + k] == last[k]; }
    }
  }

  /** A name whose first character is not white space. */
  predicate Visible(name: string) {
    |name| > 0 && !IsWhitespace(name[0])
  }

  /** The initials: the first characters of the first and last name, trimmed, or
      "U" when nothing visible is left. A name's first character is kept exactly
      when it is visible. */
  function Initials(first: string, last: string): (r: string)
    ensures 1 <= |r| <= 2
    ensures Visible(first) && Visible(last) ==> r == [first[0], last[0]]
    ensures Visible(first) && !Visible(last) ==> r == [first[0]]
    ensures !Visible(first) && Visible(last) ==> r == [last[0]]
    ensures !Visible(first) && !Visible(last) ==> r == "U"
  {
    var a := FirstChar(first);
    var b := FirstChar(last);
    var t := Trim(a + b);
    // A first character that is white space (or missing) is trimmed away.
    assert t == (if Visible(first) then a else "") + (if Visible(last) then b else "") by {
      if Visible(first) && Visible(last) {
        assert [] + (a + b) + [] == a + b;
        TrimUnique([], a + b, []);
      } else if Visible(first) {
        assert [] + a + b == a + b;
        TrimUnique([], a, b);
      } else if Visible(last) {
        assert a + b + [] == a + b;
        TrimUnique(a, b, []);
      } else {
        assert (a + b) + [] + [] == a + b;
        TrimUnique(a + b, [], []);
      }
    }
    if t != "" then t
    else "U"
  }

  /** `getUserDisplayInfo`. */
  function UserDisplayInfo(loading: bool, other: Option<Profile>): (r: DisplayInfo)
    ensures loading ==> r == LoadingInfo
    ensures !loading && other.None? ==> r == NoUserInfo
    ensures !loading && other.Some? ==>
              var first := OrElse(other.value.firstName, "");
              var last := OrElse(other.value.lastName, "");
              && r.name == DisplayName(first, last)
              && r.initials == Initials(first, last)
              && (Truthy(other.value.email) ==> r.description == other.value.email.value)
              && (!Truthy(other.value.email) && Truthy(other.value.username) ==>
                    r.description == other.value.username.value)
              && (!Truthy(other.value.email) && !Truthy(other.value.username) ==>
                    r.description == NoDetails)
  {
    if loading then LoadingInfo
    else match other
      case None => NoUserInfo
      case Some(u) =>
        var first := OrElse(u.firstName, "");
        var last := OrElse(u.lastName, "");
        DisplayInfo(DisplayName(first, last), Initials(first, last), OrElse(u.email, OrElse(u.username, NoDetails)))
  }

  /** The panel always has something to show: a non-empty name, one or two initials
      and a non-empty description. */
  lemma DisplayInfoNeverBlank(loading: bool, other: Option<Profile>)
    ensures var r := UserDisplayInfo(loading, other);
            |r.name| > 0 && 1 <= |r.initials| <= 3 && |r.description| > 0
  {
  }
}
