/** The profile handlers: the create-or-update of a user's profile from a
    request body, and adding and removing experience and education entries.

    The upsert builds an update document holding the user, each scalar field
    that is truthy in the request, the parsed skills, and a social object
    rebuilt from the truthy links. If the user has a profile, the document is
    `$set` onto it: supplied scalar fields overwrite, omitted ones stay, and
    the social object is replaced whole. Otherwise a new profile is made from
    the document. */
module Profiles {
  import opened Common
  import opened Seqs
  import opened Strings

  datatype Platform = YouTube | Facebook | Twitter | Instagram | LinkedIn

  /** The scalar profile fields the upsert copies when truthy. */
  datatype Field = Company | Website | Location | Bio | Status | GitHubUsername

  /** An experience entry as sent in the request body. */
  datatype ExperienceFields = ExperienceFields(
    title: Option<string>, company: Option<string>, location: Option<string>,
    from: Option<string>, to: Option<string>, current: Option<bool>, description: Option<string>)

  /** A stored experience entry: the id it was given and the fields sent. */
  datatype Experience = Experience(id: string, fields: ExperienceFields)

  /** An education entry as sent in the request body. */
  datatype EducationFields = EducationFields(
    school: Option<string>, degree: Option<string>, fieldOfStudy: Option<string>,
    from: Option<string>, to: Option<string>, current: Option<bool>, description: Option<string>)

  datatype Education = Education(id: string, fields: EducationFields)

  /** A stored profile. A field never set is None; the social object maps
      each platform that has a link to it. */
  datatype Profile = Profile(
    user: UserId,
    company: Option<string>, website: Option<string>, location: Option<string>,
    bio: Option<string>, status: Option<string>, githubUsername: Option<string>,
    skills: seq<string>, social: map<Platform, string>,
    experience: seq<Experience>, education: seq<Education>)

  /** The body of POST /api/profile; None stands for a field left out. */
  datatype ProfileRequest = ProfileRequest(
    company: Option<string>, website: Option<string>, location: Option<string>,
    bio: Option<string>, status: Option<string>, githubUsername: Option<string>,
    skills: Option<string>,
    youtube: Option<string>, facebook: Option<string>, twitter: Option<string>,
    instagram: Option<string>, linkedin: Option<string>)

  /** The update document the handler builds (`profileFields`): None for a
      key it does not set. */
  datatype ProfileFields = ProfileFields(
    user: UserId,
    company: Option<string>, website: Option<string>, location: Option<string>,
    bio: Option<string>, status: Option<string>, githubUsername: Option<string>,
    skills: Option<seq<string>>, social: map<Platform, string>)

  /** The result of an upsert: the profile collection afterwards and the
      profile sent back. */
  datatype Upserted = Upserted(profiles: seq<Profile>, profile: Profile)

  function Owner(p: Profile): UserId { p.user }
  function ExperienceId(e: Experience): string { e.id }
  function EducationId(e: Education): string { e.id }

  function Stored(p: Profile, f: Field): Option<string> {
    match f
    case Company => p.company
    case Website => p.website
    case Location => p.location
    case Bio => p.bio
    case Status => p.status
    case GitHubUsername => p.githubUsername
  }

  function Supplied(req: ProfileRequest, f: Field): Option<string> {
    match f
    case Company => req.company
    case Website => req.website
    case Location => req.location
    case Bio => req.bio
    case Status => req.status
    case GitHubUsername => req.githubUsername
  }

  /** The value the update document holds for field `f`, if any. */
  function InUpdate(fs: ProfileFields, f: Field): Option<string> {
    match f
    case Company => fs.company
    case Website => fs.website
    case Location => fs.location
    case Bio => fs.bio
    case Status => fs.status
    case GitHubUsername => fs.githubUsername
  }

  function Link(req: ProfileRequest, p: Platform): Option<string> {
    match p
    case YouTube => req.youtube
    case Facebook => req.facebook
    case Twitter => req.twitter
    case Instagram => req.instagram
    case LinkedIn => req.linkedin
  }

  /** A request value kept only when truthy. */
  function IfTruthy(v: Option<string>): Option<string> {
    if Truthy(v) then v else None
  }

  /** `skills.split(",").map(skill => skill.trim())`: one skill per
      comma-separated piece, in order, each trimmed; empty pieces stay. */
  function ParseSkills(s: string): (skills: seq<string>)
    ensures |skills| == Count(s, ',') + 1
  {
    SplitCount(s, ',');
    TrimAll(Split(s, ','))
  }

  /** The skills are the comma-separated pieces of the input, in order and
      one more than there are commas, each trimmed. */
  lemma ParseSkillsPieces(s: string)
    ensures var skills := ParseSkills(s);
            && |skills| == |Split(s, ',')| == Count(s, ',') + 1
            && Join(Split(s, ','), ',') == s
            && forall i :: 0 <= i < |skills| ==> IsTrimOf(skills[i], Split(s, ',')[i])
  {
    var skills := ParseSkills(s);
    JoinSplit(s, ',');
    forall i | 0 <= i < |skills| ensures IsTrimOf(skills[i], Split(s, ',')[i]) {
      TrimIsTrim(Split(s, ',')[i]);
    }
  }

  /** Parsing a skills string whose comma-separated pieces are known: each
      piece, trimmed. */
  lemma ParseSkillsOfPieces(s: string, pieces: seq<string>)
    requires |pieces| >= 1 && (forall i :: 0 <= i < |pieces| ==> ',' !in pieces[i])
    requires Join(pieces, ',') == s
    ensures ParseSkills(s) == TrimAll(pieces)
  {
    SplitJoin(pieces, ',');
  }

  /** "Road, Touring ,Vintage" gives the skills Road, Touring and Vintage. */
  lemma ParseSkillsExample(s: string)
    requires s == "Road, Touring ,Vintage"
    ensures ParseSkills(s) == ["Road", "Touring", "Vintage"]
  {
    var pieces := ["Road", " Touring ", "Vintage"];
    assert Join(pieces, ',') == s by {
      assert Join(pieces[2..], ',') == "Vintage";
    }
    ParseSkillsOfPieces(s, pieces);
    TrimsOfExample();
  }

  lemma TrimsOfExample()
    ensures TrimAll(["Road", " Touring ", "Vintage"]) == ["Road", "Touring", "Vintage"]
  {
    TrimOfTrimmed("Road");
    TrimOfTrimmed("Vintage");
    var padded, t := " Touring ", "Touring";
    assert TrimAt(t, padded, 1) by {
      assert padded[..1] == " " && padded[8..] == " " && padded[1..8] == t;
    }
    TrimFromWitness(padded, t, 1);
  }

  /** Empty pieces are kept, and a blank piece trims to the empty skill. */
  lemma ParseSkillsKeepsEmpty(s: string)
    requires s == "a,, ,b"
    ensures ParseSkills(s) == ["a", "", "", "b"]
  {
    var pieces := ["a", "", " ", "b"];
    assert Join(pieces, ',') == s by {
      assert Join(pieces[3..], ',') == "b";
      assert Join(pieces[2..], ',') == " ,b";
    }
    ParseSkillsOfPieces(s, pieces);
    TrimsOfEmptyExample();
  }

  lemma TrimsOfEmptyExample()
    ensures TrimAll(["a", "", " ", "b"]) == ["a", "", "", "b"]
  {
    TrimOfTrimmed("a");
    TrimOfTrimmed("");
    TrimOfTrimmed("b");
    var blank := " ";
    assert TrimAt("", blank, 0) by {
      assert blank[..0] == "" && blank[0..] == blank;
    }
    TrimFromWitness(blank, "", 0);
  }

  /** The update document: the user, each truthy scalar field, the parsed
      skills when truthy, and the truthy social links. */
  function BuildFields(uid: UserId, req: ProfileRequest): (fs: ProfileFields)
    ensures fs.user == uid
    ensures forall f :: InUpdate(fs, f) == IfTruthy(Supplied(req, f))
    ensures fs.skills.Some? <==> Truthy(req.skills)
    ensures fs.skills.Some? ==> fs.skills.value == ParseSkills(req.skills.value)
    ensures forall p :: p in fs.social <==> Truthy(Link(req, p))
    ensures forall p :: Truthy(Link(req, p)) ==> p in fs.social && fs.social[p] == Link(req, p).value
  {
    var social := map p | p in {YouTube, Facebook, Twitter, Instagram, LinkedIn} && Truthy(Link(req, p))
                        :: Link(req, p).value;
    ProfileFields(
      uid,
      IfTruthy(req.company), IfTruthy(req.website), IfTruthy(req.location),
      IfTruthy(req.bio), IfTruthy(req.status), IfTruthy(req.githubUsername),
      if Truthy(req.skills) then Some(ParseSkills(req.skills.value)) else None,
      social)
  }

  /** `$set` of the update document onto a stored profile: every key the
      document holds overwrites, and `social` is one key, replaced whole. */
  function ApplySet(p: Profile, fs: ProfileFields): (q: Profile)
    ensures forall f :: Stored(q, f) == (if InUpdate(fs, f).Some? then InUpdate(fs, f) else Stored(p, f))
  {
    Profile(
      fs.user,
      if fs.company.Some? then fs.company else p.company,
      if fs.website.Some? then fs.website else p.website,
      if fs.location.Some? then fs.location else p.location,
      if fs.bio.Some? then fs.bio else p.bio,
      if fs.status.Some? then fs.status else p.status,
      if fs.githubUsername.Some? then fs.githubUsername else p.githubUsername,
      if fs.skills.Some? then fs.skills.value else p.skills,
      fs.social,
      p.experience, p.education)
  }

  /** `new Profile(profileFields)`: keys the document lacks stay unset, and
      the entry lists start empty. */
  function Create(fs: ProfileFields): (q: Profile)
    ensures forall f :: Stored(q, f) == InUpdate(fs, f)
  {
    Profile(
      fs.user, fs.company, fs.website, fs.location, fs.bio, fs.status, fs.githubUsername,
      if fs.skills.Some? then fs.skills.value else [],
      fs.social, [], [])
  }

  /** A request the validators accept: status and skills present and
      non-empty. */
  predicate ValidRequest(req: ProfileRequest) {
    Truthy(req.status) && Truthy(req.skills)
  }

  /** POST /api/profile on the profile collection `profiles`, for user
      `uid`: updates the user's (first) profile if there is one, otherwise
      appends a new one. */
  function Upsert(profiles: seq<Profile>, uid: UserId, req: ProfileRequest): (r: Result<Upserted>)
    ensures r.Failure? <==> !ValidRequest(req)
    ensures r.Failure? ==> r.error == ValidationError
    ensures r.Success? ==> && r.value.profile.user == uid
                           && r.value.profile in r.value.profiles
                           && r.value.profile.skills == ParseSkills(req.skills.value)
    ensures r.Success? ==> forall f :: Truthy(Supplied(req, f)) ==> Stored(r.value.profile, f) == Supplied(req, f)
    ensures r.Success? ==> forall p :: p in r.value.profile.social <==> Truthy(Link(req, p))
    ensures r.Success? ==> forall p :: Truthy(Link(req, p)) ==> r.value.profile.social[p] == Link(req, p).value
  {
    if !ValidRequest(req) then Failure(ValidationError)
    else
      var fs := BuildFields(uid, req);
      var k := IndexOf(Map(profiles, Owner), uid);
      if k >= 0 then
        var p := ApplySet(profiles[k], fs);
        assert profiles[k := p][k] == p;
        Success(Upserted(profiles[k := p], p))
      else
        var p := Create(fs);
        assert p == (profiles + [p])[|profiles|];
        Success(Upserted(profiles + [p], p))
  }

  /** Update path: when the user has a profile, that profile is replaced in
      place; omitted or empty scalar fields keep their stored values, the
      entry lists are untouched, and stored social links that were not
      resent are gone. */
  lemma UpsertUpdatesExisting(profiles: seq<Profile>, uid: UserId, req: ProfileRequest, k: int)
    requires ValidRequest(req) && IsFirst(profiles, Owner, uid, k)
    ensures Upsert(profiles, uid, req).Success?
    ensures var u := Upsert(profiles, uid, req).value;
            && u.profiles == profiles[k := u.profile]
            && (forall f :: !Truthy(Supplied(req, f)) ==> Stored(u.profile, f) == Stored(profiles[k], f))
            && u.profile.experience == profiles[k].experience
            && u.profile.education == profiles[k].education
            && (forall p :: p in profiles[k].social && !Truthy(Link(req, p)) ==> p !in u.profile.social)
  {
    var fs := BuildFields(uid, req);
    var i := IndexOf(Map(profiles, Owner), uid);
    IndexOfMap(profiles, Owner, uid);
    FirstIsUnique(profiles, Owner, uid, i, k);
  }

  /** Create path: a user without a profile gets a new one appended, holding
      only the truthy fields, with empty entry lists. */
  lemma UpsertCreatesNew(profiles: seq<Profile>, uid: UserId, req: ProfileRequest)
    requires ValidRequest(req) && !HasKey(profiles, Owner, uid)
    ensures Upsert(profiles, uid, req).Success?
    ensures var u := Upsert(profiles, uid, req).value;
            && u.profiles == profiles + [u.profile]
            && (forall f :: Stored(u.profile, f) == IfTruthy(Supplied(req, f)))
            && u.profile.experience == [] && u.profile.education == []
  {
    var fs := BuildFields(uid, req);
    IndexOfMap(profiles, Owner, uid);
  }

  /** `after` holds at most one profile per user, `p` is the only profile
      of `uid` in it, and the other users' profiles are those of `before`. */
  ghost predicate OneProfilePerUser(before: seq<Profile>, after: seq<Profile>, uid: UserId, p: Profile) {
    && KeysUnique(after, Owner)
    && (forall i :: 0 <= i < |after| && after[i].user == uid ==> after[i] == p)
    && (forall q :: q in before && q.user != uid ==> q in after)
    && (forall q :: q in after && q.user != uid ==> q in before)
  }

  /** At most one profile per user is kept: after an upsert the user has
      exactly one profile, and other users' profiles are unchanged. */
  lemma UpsertKeepsOneProfilePerUser(profiles: seq<Profile>, uid: UserId, req: ProfileRequest)
    requires KeysUnique(profiles, Owner) && ValidRequest(req)
    ensures Upsert(profiles, uid, req).Success?
    ensures var u := Upsert(profiles, uid, req).value;
            OneProfilePerUser(profiles, u.profiles, uid, u.profile)
  {
    var u := Upsert(profiles, uid, req).value;
    var k := IndexOf(Map(profiles, Owner), uid);
    IndexOfMap(profiles, Owner, uid);
    if k >= 0 {
      UpsertUpdatesExisting(profiles, uid, req, k);
      ReplaceKeepsOnePerUser(profiles, k, u.profile);
    } else {
      UpsertCreatesNew(profiles, uid, req);
      AppendKeepsOnePerUser(profiles, u.profile);
    }
  }

  lemma ReplaceKeepsOnePerUser(profiles: seq<Profile>, k: int, p: Profile)
    requires KeysUnique(profiles, Owner) && 0 <= k < |profiles| && p.user == profiles[k].user
    ensures OneProfilePerUser(profiles, profiles[k := p], p.user, p)
  {
    var after := profiles[k := p];
    forall q | q in profiles && q.user != p.user ensures q in after {
      var i :| 0 <= i < |profiles| && profiles[i] == q;
      assert after[i] == q;
    }
    forall q | q in after && q.user != p.user ensures q in profiles {
      var i :| 0 <= i < |after| && after[i] == q;
      assert profiles[i] == q;
    }
    forall i, j | 0 <= i < j < |after| ensures Owner(after[i]) != Owner(after[j]) {
      assert Owner(after[i]) == Owner(profiles[i]) && Owner(after[j]) == Owner(profiles[j]);
    }
  }

  lemma AppendKeepsOnePerUser(profiles: seq<Profile>, p: Profile)
    requires KeysUnique(profiles, Owner) && !HasKey(profiles, Owner, p.user)
    ensures OneProfilePerUser(profiles, profiles + [p], p.user, p)
  {
    var after := profiles + [p];
    forall q | q in after && q.user != p.user ensures q in profiles {
      var i :| 0 <= i < |after| && after[i] == q;
      assert profiles[i] == q;
    }
    forall i, j | 0 <= i < j < |after| ensures Owner(after[i]) != Owner(after[j]) {
      assert after[i] == profiles[i];
      if j < |profiles| { assert after[j] == profiles[j]; }
    }
  }

  /** The validators of PUT /api/profile/experience: title, company and
      start date required. */
  predicate ValidExperience(e: ExperienceFields) {
    Truthy(e.title) && Truthy(e.company) && Truthy(e.from)
  }

  /** PUT /api/profile/experience: the entry, given id `newId`, goes in
      front. A missing profile is dereferenced: server error. */
  function AddExperience(profile: Option<Profile>, e: ExperienceFields, newId: string): (r: Result<Profile>)
    ensures !ValidExperience(e) ==> r == Failure(ValidationError)
    ensures ValidExperience(e) && profile.None? ==> r == Failure(ServerError)
    ensures r.Success? <==> ValidExperience(e) && profile.Some?
    ensures r.Success? ==> && |r.value.experience| == |profile.value.experience| + 1
                           && r.value.experience[0] == Experience(newId, e)
                           && r.value.experience[1..] == profile.value.experience
                           && r.value.(experience := profile.value.experience) == profile.value
  {
    if !ValidExperience(e) then Failure(ValidationError)
    else match profile
      case None => Failure(ServerError)
      case Some(p) => Success(p.(experience := [Experience(newId, e)] + p.experience))
  }

  /** DELETE /api/profile/experience/:exp_id: EntryNotFound when no entry
      has the id, otherwise the first entry with it is spliced out. A
      missing profile is dereferenced: server error. */
  function RemoveExperience(profile: Option<Profile>, expId: string): (r: Result<Profile>)
    ensures profile.None? ==> r == Failure(ServerError)
    ensures profile.Some? ==> (r.Failure? <==> !HasKey(profile.value.experience, ExperienceId, expId))
    ensures profile.Some? && r.Failure? ==> r.error == EntryNotFound
    ensures r.Success? ==> && |r.value.experience| == |profile.value.experience| - 1
                           && RemovedFirst(profile.value.experience, ExperienceId, expId, r.value.experience)
                           && r.value.(experience := profile.value.experience) == profile.value
  {
    match profile
    case None => Failure(ServerError)
    case Some(p) =>
      var i := IndexOf(Map(p.experience, ExperienceId), expId);
      IndexOfMap(p.experience, ExperienceId, expId);
      if i < 0 then Failure(EntryNotFound)
      else Success(p.(experience := Splice1(p.experience, i)))
  }

  /** Adding an experience under a fresh id and then removing that id gives
      back the profile unchanged. */
  lemma AddThenRemoveExperience(p: Profile, e: ExperienceFields, newId: string)
    requires ValidExperience(e) && !HasKey(p.experience, ExperienceId, newId)
    ensures AddExperience(Some(p), e, newId).Success?
    ensures RemoveExperience(Some(AddExperience(Some(p), e, newId).value), newId) == Success(p)
  {
    var q := AddExperience(Some(p), e, newId).value;
    var out := RemoveExperience(Some(q), newId).value;
    assert IsFirst(q.experience, ExperienceId, newId, 0);
    var i :| IsFirst(q.experience, ExperienceId, newId, i)
             && out.experience == q.experience[..i] + q.experience[i + 1..];
    FirstIsUnique(q.experience, ExperienceId, newId, i, 0);
    assert out.experience == p.experience;
  }

  /** With unique entry ids, removing an experience leaves no entry with
      that id and keeps the ids unique. */
  lemma RemoveExperienceClearsId(p: Profile, expId: string)
    requires KeysUnique(p.experience, ExperienceId) && RemoveExperience(Some(p), expId).Success?
    ensures !HasKey(RemoveExperience(Some(p), expId).value.experience, ExperienceId, expId)
    ensures KeysUnique(RemoveExperience(Some(p), expId).value.experience, ExperienceId)
  {
    var out := RemoveExperience(Some(p), expId).value;
    var i :| IsFirst(p.experience, ExperienceId, expId, i)
             && out.experience == p.experience[..i] + p.experience[i + 1..];
    SpliceRemovesKey(p.experience, ExperienceId, i);
    SpliceKeepsKeysUnique(p.experience, ExperienceId, i);
  }

  /** The validators of PUT /api/profile/education: school, degree, field of
      study and start date required. */
  predicate ValidEducation(e: EducationFields) {
    Truthy(e.school) && Truthy(e.degree) && Truthy(e.fieldOfStudy) && Truthy(e.from)
  }

  /** PUT /api/profile/education: the entry, given id `newId`, goes in
      front. A missing profile is dereferenced: server error. */
  function AddEducation(profile: Option<Profile>, e: EducationFields, newId: string): (r: Result<Profile>)
    ensures !ValidEducation(e) ==> r == Failure(ValidationError)
    ensures ValidEducation(e) && profile.None? ==> r == Failure(ServerError)
    ensures r.Success? <==> ValidEducation(e) && profile.Some?
    ensures r.Success? ==> && |r.value.education| == |profile.value.education| + 1
                           && r.value.education[0] == Education(newId, e)
                           && r.value.education[1..] == profile.value.education
                           && r.value.(education := profile.value.education) == profile.value
  {
    if !ValidEducation(e) then Failure(ValidationError)
    else match profile
      case None => Failure(ServerError)
      case Some(p) => Success(p.(education := [Education(newId, e)] + p.education))
  }

  /** DELETE /api/profile/education/:education_id: NotFound without a
      profile, EntryNotFound when no entry has the id, otherwise the first
      entry with it is spliced out. */
  function RemoveEducation(profile: Option<Profile>, eduId: string): (r: Result<Profile>)
    ensures profile.None? ==> r == Failure(NotFound)
    ensures profile.Some? ==> (r.Failure? <==> !HasKey(profile.value.education, EducationId, eduId))
    ensures profile.Some? && r.Failure? ==> r.error == EntryNotFound
    ensures r.Success? ==> && |r.value.education| == |profile.value.education| - 1
                           && RemovedFirst(profile.value.education, EducationId, eduId, r.value.education)
                           && r.value.(education := profile.value.education) == profile.value
  {
    match profile
    case None => Failure(NotFound)
    case Some(p) =>
      var i := IndexOf(Map(p.education, EducationId), eduId);
      IndexOfMap(p.education, EducationId, eduId);
      if i < 0 then Failure(EntryNotFound)
      else Success(p.(education := Splice1(p.education, i)))
  }

  /** Adding an education entry under a fresh id and then removing that id
      gives back the profile unchanged. */
  lemma AddThenRemoveEducation(p: Profile, e: EducationFields, newId: string)
    requires ValidEducation(e) && !HasKey(p.education, EducationId, newId)
    ensures AddEducation(Some(p), e, newId).Success?
    ensures RemoveEducation(Some(AddEducation(Some(p), e, newId).value), newId) == Success(p)
  {
    var q := AddEducation(Some(p), e, newId).value;
    var out := RemoveEducation(Some(q), newId).value;
    assert IsFirst(q.education, EducationId, newId, 0);
    var i :| IsFirst(q.education, EducationId, newId, i)
             && out.education == q.education[..i] + q.education[i + 1..];
    FirstIsUnique(q.education, EducationId, newId, i, 0);
    assert out.education == p.education;
  }

  /** With unique entry ids, removing an education entry leaves no entry
      with that id and keeps the ids unique. */
  lemma RemoveEducationClearsId(p: Profile, eduId: string)
    requires KeysUnique(p.education, EducationId) && RemoveEducation(Some(p), eduId).Success?
    ensures !HasKey(RemoveEducation(Some(p), eduId).value.education, EducationId, eduId)
    ensures KeysUnique(RemoveEducation(Some(p), eduId).value.education, EducationId)
  {
    var out := RemoveEducation(Some(p), eduId).value;
    var i :| IsFirst(p.education, EducationId, eduId, i)
             && out.education == p.education[..i] + p.education[i + 1..];
    SpliceRemovesKey(p.education, EducationId, i);
    SpliceKeepsKeysUnique(p.education, EducationId, i);
  }
}
