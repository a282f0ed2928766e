/** Properties of the user manager of src/usuario.js: the invariant its
    operations keep (valid fields, distinct ids, no two active records sharing
    a CPF or an e-mail), what a successful insertion, removal or update makes
    the look-ups and statistics answer, and that rejected operations change
    nothing. */
module UsuariosProperties {
  import opened JsText
  import opened JsValues
  import opened Usuarios

  /** The fields `adicionarUsuario` validates. */
  predicate Validos(nome: string, email: string, cpf: string) {
    NomeValido(nome) && EmailValido(email) && CpfValido(cpf)
  }

  predicate CamposValidos(u: Usuario) {
    Validos(u.nome, u.email, u.cpf)
  }

  /** Every record passed the validation of the operation that stored it. */
  predicate TodosValidos(us: seq<Usuario>) {
    forall k :: 0 <= k < |us| ==> CamposValidos(us[k])
  }

  /** The keys that identify a record are not shared. */
  predicate Unicidade(us: seq<Usuario>) {
    IdsDistintos(us) && CpfsDistintos(us) && EmailsDistintos(us)
  }

  predicate IdsDistintos(us: seq<Usuario>) {
    forall a, b :: 0 <= a < |us| && 0 <= b < |us| && a != b ==> us[a].id != us[b].id
  }

  /** No two active records have the same CPF digits. */
  predicate CpfsDistintos(us: seq<Usuario>) {
    forall a, b :: 0 <= a < |us| && 0 <= b < |us| && a != b && us[a].ativo && us[b].ativo ==>
      Digits(us[a].cpf) != Digits(us[b].cpf)
  }

  /** No two active records have the same e-mail up to letter case. */
  predicate EmailsDistintos(us: seq<Usuario>) {
    forall a, b :: 0 <= a < |us| && 0 <= b < |us| && a != b && us[a].ativo && us[b].ativo ==>
      Lower(us[a].email) != Lower(us[b].email)
  }

  /** The invariant of a manager built by the operations from an empty one,
      when every generated id is fresh. */
  predicate Wf(us: seq<Usuario>) {
    TodosValidos(us) && Unicidade(us)
  }

  /** A fresh id: no record, active or not, carries it. */
  predicate IdNovo(us: seq<Usuario>, id: string) {
    forall k :: 0 <= k < |us| ==> us[k].id != id
  }

  /** An empty manager satisfies the invariant, and so does `reset()`'s. */
  lemma ResetWf(g: Gerenciador)
    ensures Wf(Reset(g).0.usuarios)
    ensures ObterEstatisticas(Reset(g).0) == Estatisticas(0, 0, 0, None)
  {
    var e := Reset(g).0;
    FilterCountsIndices(e.usuarios, true);
    FilterCountsIndices(e.usuarios, false);
    assert Indices(e.usuarios, true) == {};
    assert Indices(e.usuarios, false) == {};
  }

  /** Appending a valid record with a fresh id whose CPF and e-mail no
      active record holds keeps the invariant. */
  lemma AnexarPreservaWf(us: seq<Usuario>, u: Usuario)
    requires Wf(us) && CamposValidos(u) && IdNovo(us, u.id)
    requires forall k :: 0 <= k < |us| ==> !Matches(us[k], PorCpf(u.cpf)) && !Matches(us[k], PorEmail(u.email))
    ensures Wf(us + [u])
  {
    AnexarPreservaValidos(us, u);
    AnexarPreservaUnicidade(us, u);
  }

  lemma AnexarPreservaValidos(us: seq<Usuario>, u: Usuario)
    requires TodosValidos(us) && CamposValidos(u)
    ensures TodosValidos(us + [u])
  {
    var vs := us + [u];
    forall k | 0 <= k < |vs|
      ensures CamposValidos(vs[k])
    {
      if k < |us| {
        assert vs[k] == us[k];
      }
    }
  }

  lemma AnexarPreservaUnicidade(us: seq<Usuario>, u: Usuario)
    requires Unicidade(us) && IdNovo(us, u.id)
    requires forall k :: 0 <= k < |us| ==> !Matches(us[k], PorCpf(u.cpf)) && !Matches(us[k], PorEmail(u.email))
    ensures Unicidade(us + [u])
  {
    var vs := us + [u];
    assert forall k :: 0 <= k < |us| ==> vs[k] == us[k];
  }

  /** A successful insertion with a fresh id keeps the invariant. */
  lemma AdicionarPreservaWf(
    g: Gerenciador, nome: string, email: string, cpf: string, telefone: Option<string>,
    id: string, agora: string)
    requires Wf(g.usuarios) && IdNovo(g.usuarios, id)
    ensures Wf(AdicionarUsuario(g, nome, email, cpf, telefone, id, agora).depois.usuarios)
  {
    var o := AdicionarUsuario(g, nome, email, cpf, telefone, id, agora);
    if o.resposta.Sucesso? {
      AnexarPreservaWf(g.usuarios, o.resposta.value);
    }
  }

  /** After a successful insertion the new record is what every look-up by
      its id, its CPF and its e-mail returns, and it is listed last. */
  lemma AdicionadoEncontravel(
    g: Gerenciador, nome: string, email: string, cpf: string, telefone: Option<string>,
    id: string, agora: string)
    requires IdNovo(g.usuarios, id)
    requires AdicionarUsuario(g, nome, email, cpf, telefone, id, agora).resposta.Sucesso?
    ensures var o := AdicionarUsuario(g, nome, email, cpf, telefone, id, agora);
      && BuscarPorId(o.depois, id) == Some(o.resposta.value)
      && BuscarPorCpf(o.depois, cpf) == Some(o.resposta.value)
      && BuscarPorEmail(o.depois, email) == Some(o.resposta.value)
      && ListarUsuarios(o.depois) == ListarUsuarios(g) + [o.resposta.value]
  {
    var o := AdicionarUsuario(g, nome, email, cpf, telefone, id, agora);
    var us, vs := g.usuarios, o.depois.usuarios;
    var n := |us|;
    assert vs[..n] == us;
    assert forall k :: 0 <= k < n ==> vs[k] == us[k];
    FindAppend(us, o.resposta.value, PorId(id));
    FindAppend(us, o.resposta.value, PorCpf(cpf));
    FindAppend(us, o.resposta.value, PorEmail(email));
  }

  /** Looking up in a list with one more record at the end: when nothing
      before it matches, the answer is the new record (if it matches). */
  lemma FindAppend(us: seq<Usuario>, u: Usuario, c: Chave)
    requires forall k :: 0 <= k < |us| ==> !Matches(us[k], c)
    requires Matches(u, c)
    ensures Buscar(us + [u], c) == Some(u)
  {
    var vs := us + [u];
    var r := Find(vs, c);
    assert Matches(vs[|us|], c);
    assert r.Some?;
    assert forall k :: 0 <= k < |us| ==> vs[k] == us[k];
  }

  /** Registering the same CPF twice fails the second time, whatever the
      formatting, the name and the e-mail. */
  lemma CpfDuasVezes(
    g: Gerenciador, nome: string, email: string, cpf: string, telefone: Option<string>,
    id: string, agora: string,
    nome2: string, email2: string, cpf2: string, telefone2: Option<string>, id2: string, agora2: string)
    requires AdicionarUsuario(g, nome, email, cpf, telefone, id, agora).resposta.Sucesso?
    requires NomeValido(nome2) && EmailValido(email2) && CpfValido(cpf2)
    requires Digits(cpf2) == Digits(cpf)
    ensures var g1 := AdicionarUsuario(g, nome, email, cpf, telefone, id, agora).depois;
      AdicionarUsuario(g1, nome2, email2, cpf2, telefone2, id2, agora2).resposta == Falha(CpfJaCadastrado)
  {
    var g1 := AdicionarUsuario(g, nome, email, cpf, telefone, id, agora).depois;
    assert Matches(g1.usuarios[|g.usuarios|], PorCpf(cpf2));
  }

  /** Registering an e-mail that differs only in letter case from an active
      one fails when the CPF is new. */
  lemma EmailDuasVezes(
    g: Gerenciador, nome: string, email: string, cpf: string, telefone: Option<string>,
    id: string, agora: string,
    nome2: string, email2: string, cpf2: string, telefone2: Option<string>, id2: string, agora2: string)
    requires AdicionarUsuario(g, nome, email, cpf, telefone, id, agora).resposta.Sucesso?
    requires NomeValido(nome2) && EmailValido(email2) && CpfValido(cpf2)
    requires Lower(email2) == Lower(email)
    requires var g1 := AdicionarUsuario(g, nome, email, cpf, telefone, id, agora).depois;
      BuscarPorCpf(g1, cpf2).None?
    ensures var g1 := AdicionarUsuario(g, nome, email, cpf, telefone, id, agora).depois;
      AdicionarUsuario(g1, nome2, email2, cpf2, telefone2, id2, agora2).resposta == Falha(EmailJaCadastrado)
  {
    var g1 := AdicionarUsuario(g, nome, email, cpf, telefone, id, agora).depois;
    assert Matches(g1.usuarios[|g.usuarios|], PorEmail(email2));
  }

  /** Deactivating a record keeps the invariant. */
  lemma DesativarPreservaWf(us: seq<Usuario>, i: nat)
    requires Wf(us) && i < |us|
    ensures Wf(us[i := us[i].(ativo := false)])
  {
    DesativarPreservaValidos(us, i);
    DesativarPreservaUnicidade(us, i);
  }

  lemma DesativarPreservaValidos(us: seq<Usuario>, i: nat)
    requires TodosValidos(us) && i < |us|
    ensures TodosValidos(us[i := us[i].(ativo := false)])
  {
    var vs := us[i := us[i].(ativo := false)];
    forall k | 0 <= k < |vs|
      ensures CamposValidos(vs[k])
    {
      assert CamposValidos(us[k]);
      assert vs[k].nome == us[k].nome && vs[k].email == us[k].email && vs[k].cpf == us[k].cpf;
    }
  }

  lemma DesativarPreservaUnicidade(us: seq<Usuario>, i: nat)
    requires Unicidade(us) && i < |us|
    ensures Unicidade(us[i := us[i].(ativo := false)])
  {
    var vs := us[i := us[i].(ativo := false)];
    assert forall k :: 0 <= k < |vs| ==>
      vs[k].id == us[k].id && vs[k].cpf == us[k].cpf && vs[k].email == us[k].email && (vs[k].ativo ==> us[k].ativo);
  }

  /** Removal only deactivates, so it keeps the invariant. */
  lemma RemoverPreservaWf(g: Gerenciador, id: string)
    requires Wf(g.usuarios)
    ensures Wf(RemoverUsuario(g, id).depois.usuarios)
  {
    match Find(g.usuarios, PorId(id))
    case None =>
    case Some(i) =>
      DesativarPreservaWf(g.usuarios, i);
  }

  /** After a successful removal the id is no longer found, the record is
      still counted, and one active record became inactive. */
  lemma RemovidoOculto(g: Gerenciador, id: string)
    requires IdsDistintos(g.usuarios)
    requires RemoverUsuario(g, id).resposta.Sucesso?
    ensures var g1 := RemoverUsuario(g, id).depois;
      && BuscarPorId(g1, id).None?
      && RemoverUsuario(g1, id).resposta == Falha(UsuarioNaoEncontrado)
      && ObterEstatisticas(g1).totalUsuarios == ObterEstatisticas(g).totalUsuarios
      && ObterEstatisticas(g1).usuariosAtivos + 1 == ObterEstatisticas(g).usuariosAtivos
      && ObterEstatisticas(g1).usuariosInativos == ObterEstatisticas(g).usuariosInativos + 1
  {
    var us, vs := g.usuarios, RemoverUsuario(g, id).depois.usuarios;
    var i :| 0 <= i < |us| && Matches(us[i], PorId(id)) && vs == us[i := us[i].(ativo := false)];
    assert forall k :: 0 <= k < |vs| ==> !Matches(vs[k], PorId(id));
    assert Indices(us, true) == Indices(vs, true) + {i};
    assert i !in Indices(vs, true);
    assert Indices(vs, false) == Indices(us, false) + {i};
    assert i !in Indices(us, false);
  }

  /** A record that keeps its slot and id: the first record of the list with
      the key of another user, when no other active record may share it. */
  lemma DonoUnico(us: seq<Usuario>, i: nat, id: string, c: Chave)
    requires i < |us| && Matches(us[i], PorId(id))
    requires IdsDistintos(us)
    requires c.PorCpf? ==> CpfsDistintos(us)
    requires c.PorEmail? ==> EmailsDistintos(us)
    requires !c.PorId?
    requires !DeOutroUsuario(us, c, id)
    ensures forall k :: 0 <= k < |us| && k != i ==> !Matches(us[k], c)
  {
    match Buscar(us, c)
    case None =>
    case Some(u) =>
      var j :| 0 <= j < |us| && us[j] == u && Matches(u, c);
      assert j == i;
      forall k | 0 <= k < |us| && k != i
        ensures !Matches(us[k], c)
      {
        if c.PorCpf? {
          assert us[k].ativo ==> Digits(us[k].cpf) != Digits(us[j].cpf);
        } else {
          assert us[k].ativo ==> Lower(us[k].email) != Lower(us[j].email);
        }
      }
  }

  /** Replacing a record by a valid one with the same id, whose CPF and
      e-mail no other active record holds, keeps the invariant. */
  lemma SubstituirPreservaWf(us: seq<Usuario>, i: nat, u: Usuario)
    requires Wf(us) && i < |us| && CamposValidos(u) && u.id == us[i].id
    requires forall k :: 0 <= k < |us| && k != i ==>
      !Matches(us[k], PorCpf(u.cpf)) && !Matches(us[k], PorEmail(u.email))
    ensures Wf(us[i := u])
  {
    SubstituirPreservaValidos(us, i, u);
    SubstituirPreservaUnicidade(us, i, u);
  }

  lemma SubstituirPreservaValidos(us: seq<Usuario>, i: nat, u: Usuario)
    requires TodosValidos(us) && i < |us| && CamposValidos(u)
    ensures TodosValidos(us[i := u])
  {
    var vs := us[i := u];
    forall k | 0 <= k < |vs|
      ensures CamposValidos(vs[k])
    {
      if k != i {
        assert vs[k] == us[k];
      }
    }
  }

  lemma SubstituirPreservaUnicidade(us: seq<Usuario>, i: nat, u: Usuario)
    requires Unicidade(us) && i < |us| && u.id == us[i].id
    requires forall k :: 0 <= k < |us| && k != i ==>
      !Matches(us[k], PorCpf(u.cpf)) && !Matches(us[k], PorEmail(u.email))
    ensures Unicidade(us[i := u])
  {
    var vs := us[i := u];
    assert forall k :: 0 <= k < |us| && k != i ==> vs[k] == us[k];
  }

  /** An active record is the only active holder of its own CPF and e-mail. */
  lemma DonoProprio(us: seq<Usuario>, i: nat)
    requires Unicidade(us) && i < |us| && us[i].ativo
    ensures forall k :: 0 <= k < |us| && k != i ==>
      !Matches(us[k], PorCpf(us[i].cpf)) && !Matches(us[k], PorEmail(us[i].email))
  {
  }

  /** The updated record passes validation: supplied fields were checked,
      the others were valid before. */
  lemma AplicarValido(v: Usuario, d: Dados, u: Usuario)
    requires CamposValidos(v)
    requires Informado(d.nome) ==> NomeValido(d.nome.value)
    requires Informado(d.email) ==> EmailValido(d.email.value)
    requires Informado(d.cpf) ==> CpfValido(d.cpf.value)
    requires u.nome == (if Informado(d.nome) then d.nome.value else v.nome)
    requires u.email == (if Informado(d.email) then d.email.value else v.email)
    requires u.cpf == (if Informado(d.cpf) then d.cpf.value else v.cpf)
    ensures CamposValidos(u)
  {
  }

  /** After the checks of an update pass, no other active record holds the
      CPF or the e-mail the record ends up with. */
  lemma SemConflito(us: seq<Usuario>, i: nat, id: string, d: Dados, u: Usuario)
    requires Unicidade(us) && i < |us| && Matches(us[i], PorId(id))
    requires ErroDeAtualizacao(us, id, d).None?
    requires u.email == (if Informado(d.email) then d.email.value else us[i].email)
    requires u.cpf == (if Informado(d.cpf) then d.cpf.value else us[i].cpf)
    ensures forall k :: 0 <= k < |us| && k != i ==>
      !Matches(us[k], PorCpf(u.cpf)) && !Matches(us[k], PorEmail(u.email))
  {
    DonoProprio(us, i);
    if Informado(d.cpf) {
      DonoUnico(us, i, id, PorCpf(d.cpf.value));
    }
    if Informado(d.email) {
      DonoUnico(us, i, id, PorEmail(d.email.value));
    }
  }

  /** A successful update keeps the invariant: the new values were
      validated and are held by no other active record. */
  lemma AtualizarPreservaWf(g: Gerenciador, id: string, d: Dados)
    requires Wf(g.usuarios)
    ensures Wf(AtualizarUsuario(g, id, d).depois.usuarios)
  {
    var us := g.usuarios;
    match Find(us, PorId(id))
    case None =>
    case Some(i) =>
      if ErroDeAtualizacao(us, id, d).None? {
        var u := Aplicar(us[i], d);
        assert CamposValidos(us[i]);
        AplicarValido(us[i], d, u);
        SemConflito(us, i, id, d, u);
        SubstituirPreservaWf(us, i, u);
      }
  }

  /** An update of an existing user that supplies no field, or only empty
      ones, succeeds and changes nothing. */
  lemma AtualizarSemDados(g: Gerenciador, id: string, d: Dados)
    requires exists k :: 0 <= k < |g.usuarios| && Matches(g.usuarios[k], PorId(id))
    requires !Informado(d.nome) && !Informado(d.email) && !Informado(d.cpf) && d.telefone.None?
    ensures AtualizarUsuario(g, id, d).resposta.Sucesso?
    ensures AtualizarUsuario(g, id, d).depois == g
  {
    var o := AtualizarUsuario(g, id, d);
    var i :| 0 <= i < |g.usuarios| && Matches(g.usuarios[i], PorId(id))
      && o.depois.usuarios == g.usuarios[i := o.resposta.value]
      && o.resposta.value.id == id && o.resposta.value.ativo
      && o.resposta.value.dataCadastro == g.usuarios[i].dataCadastro
      && o.resposta.value.nome == g.usuarios[i].nome
      && o.resposta.value.email == g.usuarios[i].email
      && o.resposta.value.cpf == g.usuarios[i].cpf
      && o.resposta.value.telefone == g.usuarios[i].telefone;
    assert o.resposta.value == g.usuarios[i];
  }

  /** Under distinct ids, the record found by id is the one at its slot. */
  lemma FindPorId(us: seq<Usuario>, i: nat, id: string)
    requires IdsDistintos(us) && i < |us| && Matches(us[i], PorId(id))
    ensures Find(us, PorId(id)) == Some(i)
  {
  }

  /** Under the invariant, the first active holder of an active record's own
      CPF or e-mail is that record. */
  lemma ProprioDono(us: seq<Usuario>, i: nat, id: string)
    requires Unicidade(us) && i < |us| && Matches(us[i], PorId(id))
    ensures !DeOutroUsuario(us, PorCpf(us[i].cpf), id)
    ensures !DeOutroUsuario(us, PorEmail(us[i].email), id)
  {
    DonoProprio(us, i);
    assert Matches(us[i], PorCpf(us[i].cpf)) && Matches(us[i], PorEmail(us[i].email));
  }

  /** Resubmitting a user's own name, e-mail and CPF is not a conflict: the
      update succeeds and changes nothing. */
  lemma AtualizarComPropriosDados(g: Gerenciador, id: string, i: nat)
    requires Wf(g.usuarios) && i < |g.usuarios| && Matches(g.usuarios[i], PorId(id))
    ensures var u := g.usuarios[i];
      var o := AtualizarUsuario(g, id, Dados(Some(u.nome), Some(u.email), Some(u.cpf), None));
      o.resposta == Sucesso(u) && o.depois == g
  {
    var us := g.usuarios;
    var u := us[i];
    FindPorId(us, i, id);
    assert CamposValidos(u);
    ProprioDono(us, i, id);
    ProprioSemErro(us, id, u);
    var d := Dados(Some(u.nome), Some(u.email), Some(u.cpf), None);
    assert Aplicar(u, d) == u;
    assert us[i := u] == us;
  }

  /** The checks pass for valid fields that no other user holds. */
  lemma ProprioSemErro(us: seq<Usuario>, id: string, u: Usuario)
    requires Validos(u.nome, u.email, u.cpf)
    requires !DeOutroUsuario(us, PorCpf(u.cpf), id) && !DeOutroUsuario(us, PorEmail(u.email), id)
    ensures ErroDeAtualizacao(us, id, Dados(Some(u.nome), Some(u.email), Some(u.cpf), None)).None?
  {
  }

  /** A record that is the only one matching a key is what the look-up returns. */
  lemma BuscarUnico(us: seq<Usuario>, i: nat, c: Chave)
    requires i < |us| && Matches(us[i], c)
    requires forall k :: 0 <= k < |us| && k != i ==> !Matches(us[k], c)
    ensures Buscar(us, c) == Some(us[i])
  {
  }

  /** After a successful change of e-mail, the look-up by the new address
      returns the updated record and the old address, when it differs up to
      letter case, is no longer found. */
  lemma AtualizarEmailEncontravel(g: Gerenciador, id: string, d: Dados)
    requires Unicidade(g.usuarios) && Informado(d.email)
    requires AtualizarUsuario(g, id, d).resposta.Sucesso?
    ensures var o := AtualizarUsuario(g, id, d);
      BuscarPorEmail(o.depois, d.email.value) == Some(o.resposta.value)
    ensures forall i :: 0 <= i < |g.usuarios| && Matches(g.usuarios[i], PorId(id)) ==>
      (Lower(g.usuarios[i].email) != Lower(d.email.value) ==>
        BuscarPorEmail(AtualizarUsuario(g, id, d).depois, g.usuarios[i].email).None?)
  {
    var us := g.usuarios;
    var i := Find(us, PorId(id)).value;
    FindPorId(us, i, id);
    EmailTrocado(us, i, id, d);
  }

  /** The list-level content of the e-mail change: after the checks pass and
      record `i` is rewritten, the new address finds it and an old address
      that differs up to case finds nothing. */
  lemma EmailTrocado(us: seq<Usuario>, i: nat, id: string, d: Dados)
    requires Unicidade(us) && i < |us| && Matches(us[i], PorId(id)) && Informado(d.email)
    requires ErroDeAtualizacao(us, id, d).None?
    ensures var vs := us[i := Aplicar(us[i], d)];
      && Buscar(vs, PorEmail(d.email.value)) == Some(Aplicar(us[i], d))
      && (Lower(us[i].email) != Lower(d.email.value) ==> Buscar(vs, PorEmail(us[i].email)).None?)
  {
    var u := Aplicar(us[i], d);
    var vs := us[i := u];
    SemConflito(us, i, id, d, u);
    assert forall k :: 0 <= k < |vs| && k != i ==> vs[k] == us[k];
    BuscarUnico(vs, i, PorEmail(d.email.value));
    DonoProprio(us, i);
  }

  /** The listing grows by the records appended to the list, when active. */
  lemma {:induction false} ListarAppend(us: seq<Usuario>, u: Usuario)
    ensures ListarUsuarios(Gerenciador(us + [u])) ==
      ListarUsuarios(Gerenciador(us)) + (if u.ativo then [u] else [])
  {
    assert (us + [u])[..|us|] == us;
  }

  /** The scenario of the listing and statistics tests: two users are
      registered in an empty manager and the first is removed. Only the second
      is listed, both are counted, and the last registration time is the
      second's. */
  lemma CadastrarDoisRemoverPrimeiro(
    nome1: string, email1: string, cpf1: string, id1: string, agora1: string,
    nome2: string, email2: string, cpf2: string, id2: string, agora2: string)
    requires AdicionarUsuario(Gerenciador([]), nome1, email1, cpf1, None, id1, agora1).resposta.Sucesso?
    requires var g1 := AdicionarUsuario(Gerenciador([]), nome1, email1, cpf1, None, id1, agora1).depois;
      AdicionarUsuario(g1, nome2, email2, cpf2, None, id2, agora2).resposta.Sucesso?
    requires id1 != id2
    ensures var g1 := AdicionarUsuario(Gerenciador([]), nome1, email1, cpf1, None, id1, agora1).depois;
      var o2 := AdicionarUsuario(g1, nome2, email2, cpf2, None, id2, agora2);
      var r := RemoverUsuario(o2.depois, id1);
      && r.resposta.Sucesso?
      && ListarUsuarios(r.depois) == [o2.resposta.value]
      && ObterEstatisticas(r.depois) == Estatisticas(2, 1, 1, Some(agora2))
  {
    var g1 := AdicionarUsuario(Gerenciador([]), nome1, email1, cpf1, None, id1, agora1).depois;
    var u1 := Usuario(id1, nome1, email1, cpf1, None, agora1, true);
    var u2 := Usuario(id2, nome2, email2, cpf2, None, agora2, true);
    Cadastrado(Gerenciador([]), nome1, email1, cpf1, None, id1, agora1);
    assert [] + [u1] == [u1];
    assert g1 == Gerenciador([u1]);
    Cadastrado(g1, nome2, email2, cpf2, None, id2, agora2);
    assert [u1] + [u2] == [u1, u2];
    RemoverPrimeiroDeDois(u1, u2);
  }

  /** A successful insertion appends the record it returns. */
  lemma Cadastrado(
    g: Gerenciador, nome: string, email: string, cpf: string, telefone: Option<string>,
    id: string, agora: string)
    requires AdicionarUsuario(g, nome, email, cpf, telefone, id, agora).resposta.Sucesso?
    ensures var u := Usuario(id, nome, email, cpf, telefone, agora, true);
      AdicionarUsuario(g, nome, email, cpf, telefone, id, agora) ==
        Resultado(Gerenciador(g.usuarios + [u]), Sucesso(u))
  {
  }

  /** Two active records with distinct ids; removing the first leaves the
      second as the only listed record and the last registration. */
  lemma RemoverPrimeiroDeDois(u1: Usuario, u2: Usuario)
    requires u1.ativo && u2.ativo && u1.id != u2.id
    ensures var r := RemoverUsuario(Gerenciador([u1, u2]), u1.id);
      && r.resposta.Sucesso?
      && ListarUsuarios(r.depois) == [u2]
      && ObterEstatisticas(r.depois) == Estatisticas(2, 1, 1, Some(u2.dataCadastro))
  {
    var us := [u1, u2];
    assert Find(us, PorId(u1.id)) == Some(0);
    var v1 := u1.(ativo := false);
    var r := RemoverUsuario(Gerenciador(us), u1.id);
    assert r.depois.usuarios == [v1, u2];
    FiltrarDois(v1, u2, true);
    FiltrarDois(v1, u2, false);
    assert ListarUsuarios(r.depois) == [u2];
  }

  /** Filtering a two-record list keeps each record whose flag matches. */
  lemma FiltrarDois(a: Usuario, b: Usuario, ativo: bool)
    ensures Filter([a, b], ativo) ==
      (if a.ativo == ativo then [a] else []) + (if b.ativo == ativo then [b] else [])
  {
    assert [a, b][..1] == [a];
    assert [a][..0] == [];
  }
}
