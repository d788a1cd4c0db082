/** `get_resolution_category`: the resolution tier of an image, decided by its shorter side. */
module Tiering {

  /** The six tiers, highest first. */
  datatype Tier = UHD8K | UHD4K | QHD2K | FHD1080p | HD720p | StandardRes
  {
    /** The folder name the tier is filed under. */
    function Name(): string {
      match this
      case UHD8K => "8K_UHD"
      case UHD4K => "4K_UHD"
      case QHD2K => "QHD_2K"
      case FHD1080p => "FHD_1080p"
      case HD720p => "HD_720p"
      case StandardRes => "Standard_Res"
    }

    /** Position in the order the thresholds are tried, 0 first. */
    function Rank(): nat {
      match this
      case UHD8K => 0
      case UHD4K => 1
      case QHD2K => 2
      case FHD1080p => 3
      case HD720p => 4
      case StandardRes => 5
    }

    /** The least short side the tier's threshold accepts. */
    function Threshold(): nat {
      match this
      case UHD8K => 4320
      case UHD4K => 2160
      case QHD2K => 1440
      case FHD1080p => 1080
      case HD720p => 720
      case StandardRes => 0
    }

    /** The tier's threshold test; the last tier accepts everything. */
    predicate Admits(shortSide: nat) {
      shortSide >= Threshold()
    }
  }

  function ShortSide(w: nat, h: nat): (s: nat)
    ensures s <= w && s <= h && (s == w || s == h)
  {
    if w <= h then w else h
  }

  /** The thresholds are tried from the highest down and the first one met names the tier. */
  function Category(w: nat, h: nat): (t: Tier)
    ensures t.Admits(ShortSide(w, h))
    ensures forall u: Tier :: u.Rank() < t.Rank() ==> !u.Admits(ShortSide(w, h))
  {
    var s := ShortSide(w, h);
    if s >= 4320 then UHD8K
    else if s >= 2160 then UHD4K
    else if s >= 1440 then QHD2K
    else if s >= 1080 then FHD1080p
    else if s >= 720 then HD720p
    else StandardRes
  }

  /** Ranks are distinct, so a tier is identified by its rank. */
  lemma RankInjective(t: Tier, u: Tier)
    ensures t.Rank() == u.Rank() <==> t == u
  {
  }

  /** A higher tier has a higher threshold. */
  lemma ThresholdsDecrease(t: Tier, u: Tier)
    ensures t.Rank() < u.Rank() <==> t.Threshold() > u.Threshold()
  {
  }

  /** Category is the one tier that admits the short side while no higher tier does. */
  lemma CategoryIsHighestAdmitting(w: nat, h: nat, t: Tier)
    ensures Category(w, h) == t <==>
      t.Admits(ShortSide(w, h)) && forall u: Tier :: u.Rank() < t.Rank() ==> !u.Admits(ShortSide(w, h))
  {
    var c, s := Category(w, h), ShortSide(w, h);
    if t.Admits(s) && forall u: Tier :: u.Rank() < t.Rank() ==> !u.Admits(s) {
      assert c.Rank() < t.Rank() ==> !c.Admits(s);
      assert t.Rank() < c.Rank() ==> !t.Admits(s);
      RankInjective(c, t);
    }
  }

  /** Turning the image by a quarter does not change its tier. */
  lemma CategorySymmetric(w: nat, h: nat)
    ensures Category(w, h) == Category(h, w)
  {
  }

  /** Growing the short side never lowers the tier. */
  lemma CategoryMonotone(w: nat, h: nat, w': nat, h': nat)
    requires ShortSide(w, h) <= ShortSide(w', h')
    ensures Category(w', h').Rank() <= Category(w, h).Rank()
  {
  }

  /** The tier one rank above t. */
  function Above(t: Tier): (a: Tier)
    requires t != UHD8K
    ensures a.Rank() + 1 == t.Rank()
  {
    match t
    case UHD4K => UHD8K
    case QHD2K => UHD4K
    case FHD1080p => QHD2K
    case HD720p => FHD1080p
    case StandardRes => HD720p
  }

  /** A tier holds exactly the short sides from its own threshold up to, not including,
      the threshold of the tier above it. */
  lemma CategoryBand(w: nat, h: nat, t: Tier)
    ensures Category(w, h) == t <==>
      t.Threshold() <= ShortSide(w, h) && (t == UHD8K || ShortSide(w, h) < Above(t).Threshold())
  {
  }

  /** Every tier has its own folder name. */
  lemma NamesDistinct(t: Tier, u: Tier)
    ensures t.Name() == u.Name() <==> t == u
  {
  }
}
