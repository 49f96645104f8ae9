/** The verse pool, the name tag and the greeting posted to the group chat. */
module Messages {
  import opened Wrappers

  const VERSES: seq<string> := [
    "Psalm 20:4 – May He give you the desire of your heart and make all your plans succeed.",
    "Jeremiah 29:11 – 'For I know the plans I have for you,' declares the LORD.",
    "Numbers 6:24 – The LORD bless you and keep you.",
    "Proverbs 9:11 – For through wisdom your days will be many.",
    "Psalm 37:4 – Delight yourself in the Lord, and He will give you the desires of your heart."
  ]

  /** The position `random.choice(VERSES)` picked. */
  type VerseIndex = i: nat | i < 5

  /** A username is shown only when it is present and non-empty (Python truthiness). */
  predicate HasHandle(username: Option<string>) {
    username.Some? && username.value != ""
  }

  /** `first_name (@username)` when there is a handle, the first name alone otherwise. */
  function NameTag(name: string, username: Option<string>): string {
    if HasHandle(username) then name + " (@" + username.value + ")" else name
  }

  const Frame1: string := "╔════════════════╗\n🎉 *Happy Birthday, "
  const Frame2: string := "!* 🎉\nMay your day be filled with joy, love, and laughter 💖\n📖 "
  const Frame3: string := "\n🎁 Wishing you an amazing year ahead! ✨\n🍰🎂🎉 HBD "
  const Frame4: string := "! 🎉🎂🍰\n╚════════════════╝"

  /** The Markdown greeting: the name tag in the headline and in the closing line, the verse between. */
  function Render(nameTag: string, verse: string): string {
    Frame1 + nameTag + Frame2 + verse + Frame3 + nameTag + Frame4
  }

  /** `t` occurs in `s` starting at position `i`. */
  predicate OccursAt(s: string, t: string, i: int) {
    0 <= i <= |s| - |t| && s[i..i + |t|] == t
  }

  /** `t` occurs in `s` as a contiguous piece. */
  ghost predicate Contains(s: string, t: string) {
    exists i :: OccursAt(s, t, i)
  }

  lemma ContainsTransitive(s: string, t: string, w: string)
    requires Contains(s, t) && Contains(t, w)
    ensures Contains(s, w)
  {
    var i :| OccursAt(s, t, i);
    var j :| OccursAt(t, w, j);
    forall k | 0 <= k < |w| ensures s[i + j..i + j + |w|][k] == w[k] {
      assert w[k] == t[j + k] == s[i + j + k];
    }
    assert OccursAt(s, w, i + j);
  }

  /**
   * The name tag starts with the first name; it is the first name alone
   * exactly when there is no handle, and otherwise it shows `@username`.
   */
  lemma NameTagShape(name: string, username: Option<string>)
    ensures |NameTag(name, username)| >= |name| && NameTag(name, username)[..|name|] == name
    ensures NameTag(name, username) == name <==> !HasHandle(username)
    ensures HasHandle(username) ==> Contains(NameTag(name, username), "@" + username.value)
  {
    if HasHandle(username) {
      var tag := NameTag(name, username);
      var h := "@" + username.value;
      assert |tag| > |name|;
      assert tag[|name| + 2..|name| + 2 + |h|] == h;
      assert OccursAt(tag, h, |name| + 2);
    }
  }

  /** The greeting names the person twice and quotes the verse. */
  lemma RenderMentions(nameTag: string, verse: string)
    ensures var msg := Render(nameTag, verse);
      Contains(msg, nameTag) && Contains(msg, verse)
  {
    var msg := Render(nameTag, verse);
    var a := |Frame1|;
    var b := a + |nameTag| + |Frame2|;
    assert msg[a..a + |nameTag|] == nameTag;
    assert msg[b..b + |verse|] == verse;
    assert OccursAt(msg, nameTag, a) && OccursAt(msg, verse, b);
  }

  /**
   * The posted message carries the person's first name, their `@username`
   * when they have one, and the chosen element of VERSES.
   */
  lemma GreetingMentions(name: string, username: Option<string>, v: VerseIndex)
    ensures var msg := Render(NameTag(name, username), VERSES[v]);
      Contains(msg, name) && Contains(msg, VERSES[v]) &&
      (HasHandle(username) ==> Contains(msg, "@" + username.value))
  {
    var tag := NameTag(name, username);
    var msg := Render(tag, VERSES[v]);
    RenderMentions(tag, VERSES[v]);
    NameTagShape(name, username);
    assert OccursAt(tag, name, 0);
    ContainsTransitive(msg, tag, name);
    if HasHandle(username) {
      ContainsTransitive(msg, tag, "@" + username.value);
    }
  }
}
