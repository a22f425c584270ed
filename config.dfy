/**
 * The command-line configuration of the exporter. The argument parser fills
 * it once and nothing changes it afterwards, so it is a value here.
 */
module Config {

  import opened Wrappers
  import opened Text

  /**
   * The parsed options: `--help`, `--username`, `--passwordFile`,
   * `--serverURL`, `--jql` and the optional `--fields` (`None` when absent).
   */
  datatype Config = Config(
    help: bool,
    username: string,
    passwordFile: string,
    server: string,
    jql: string,
    fields: Option<string>)

  predicate EndsWithSlash(s: string) { |s| > 0 && s[|s| - 1] == '/' }

  /** The server URL with one trailing '/' removed, if it has one. */
  function GetServer(cfg: Config): (r: string)
    ensures EndsWithSlash(cfg.server) ==> r + "/" == cfg.server
    ensures !EndsWithSlash(cfg.server) ==> r == cfg.server
  {
    if EndsWithSlash(cfg.server) then cfg.server[..|cfg.server| - 1] else cfg.server
  }

  /** Only one slash goes: a server URL ending in "//" still ends in '/' afterwards. */
  lemma GetServerStripsOnlyOne(cfg: Config)
    requires |cfg.server| >= 2 && cfg.server[|cfg.server| - 2..] == "//"
    ensures EndsWithSlash(GetServer(cfg)) && |GetServer(cfg)| == |cfg.server| - 1
  {
    assert cfg.server[|cfg.server| - 2] == '/';
  }

  /** The set of field names: empty for an absent or empty `--fields`, otherwise the comma-separated pieces. */
  function GetFields(cfg: Config): (r: set<string>)
    ensures cfg.fields.None? || cfg.fields == Some("") ==> r == {}
    ensures forall x :: x in r ==> ',' !in x
  {
    if cfg.fields.None? || cfg.fields.value == "" then {}
    else
      var pieces := JavaSplit(cfg.fields.value, ',');
      assert forall i :: 0 <= i < |pieces| ==> ',' !in pieces[i];
      set i | 0 <= i < |pieces| :: pieces[i]
  }

  /**
   * A piece of a comma split survives `String.split` when it is non-empty or a
   * non-empty piece follows it: leading and interior empty pieces are kept,
   * trailing ones are not.
   */
  predicate Kept(pieces: seq<string>, i: int)
    requires 0 <= i < |pieces|
  {
    pieces[i] != "" || exists j :: i < j < |pieces| && pieces[j] != ""
  }

  /** The pieces `String.split` keeps are exactly the first ones, up to the last non-empty piece. */
  lemma KeptAreFirst(s: string)
    requires s != ""
    ensures var all, kept := SplitAll(s, ','), JavaSplit(s, ',');
      |kept| <= |all| && kept == all[..|kept|] &&
      forall i :: 0 <= i < |all| ==> (Kept(all, i) <==> i < |kept|)
  {
    var all, kept := SplitAll(s, ','), JavaSplit(s, ',');
    if ',' !in s {
      SplitAllAbsent(s, ',');
      assert all == [s] && kept == [s];
      assert Kept(all, 0);
    } else {
      var k := |kept|;
      assert kept == DropTrailingEmpty(all);
      forall i | 0 <= i < |all|
        ensures Kept(all, i) <==> i < k
      {
        if i < k {
          assert all[k - 1] == kept[k - 1] != "";
          if i < k - 1 {
            assert i < k - 1 < |all| && all[k - 1] != "";
          }
        } else {
          assert all[i] == "";
          assert forall j :: i < j < |all| ==> all[j] == "";
        }
      }
    }
  }

  lemma FieldsAreKeptPieces(cfg: Config, x: string)
    requires cfg.fields.Some? && cfg.fields.value != ""
    ensures x in GetFields(cfg) <==>
      exists i :: 0 <= i < |SplitAll(cfg.fields.value, ',')| && SplitAll(cfg.fields.value, ',')[i] == x
                  && Kept(SplitAll(cfg.fields.value, ','), i)
  {
    var s := cfg.fields.value;
    var all, kept := SplitAll(s, ','), JavaSplit(s, ',');
    KeptAreFirst(s);
    assert GetFields(cfg) == set i | 0 <= i < |kept| :: kept[i];
    if x in GetFields(cfg) {
      var i :| 0 <= i < |kept| && kept[i] == x;
      assert all[i] == x && Kept(all, i);
    }
    if exists i :: 0 <= i < |all| && all[i] == x && Kept(all, i) {
      var i :| 0 <= i < |all| && all[i] == x && Kept(all, i);
      assert i < |kept| && kept[i] == x;
      assert x in GetFields(cfg);
    }
  }

  /**
   * Joining a set of non-empty field names with ',' in any order and passing
   * the result as `--fields` gives back the same set.
   */
  lemma GetFieldsOfJoin(cfg: Config, order: seq<string>, names: set<string>)
    requires forall x :: x in names <==> x in order
    requires forall x :: x in names ==> x != "" && ',' !in x
    requires cfg.fields == Some(Join(',', order))
    ensures GetFields(cfg) == names
  {
    if order == [] {
      assert names == {};
    } else {
      var s := Join(',', order);
      assert forall i :: 0 <= i < |order| ==> order[i] in names;
      if |order| == 1 {
        assert s == order[0];
        assert JavaSplit(s, ',') == [order[0]];
      } else {
        assert s == order[0] + [','] + Join(',', order[1..]);
        assert s[|order[0]|] == ',';
        SplitAllJoin(order, ',');
        assert DropTrailingEmpty(order) == order;
      }
      assert s != "";
      var pieces := JavaSplit(s, ',');
      assert pieces == order;
      assert GetFields(cfg) == set i | 0 <= i < |order| :: order[i];
    }
  }
}
